/**
 Which byte strings a load accepts: exactly those made of a header, 256 partitions whose entries come in any order
 and any number of times, within the limits, and anything after that.
 */
module ArchiveLayouts {
  import opened Bytes
  import opened LittleEndian
  import opened Ordinal
  import opened Sequences
  import opened ArchiveFormat
  import opened ArchiveLaws

  // ---------------------------------------------------------------- the header

  /** The header by byte positions: four bytes of magic, four of format, the version, and the number 256. */
  lemma HeaderExactly(schema: Schema, version: IoHash, s: Bytes, format: int, rest: Bytes)
    requires Known(schema) && IsInt32(format)
    ensures ReadHeader(schema, version, s) == Got(format, rest)
       <==> && |s| >= 44 && s[44..] == rest
            && s[..4] == (if schema == HISTORY then [0x58, 0x41, 0x48, 0x31] else [0x58, 0x43, 0x44, 0x43])
            && s[4..8] == Int32Bytes(format) && (format == 1 || (format == 2 && schema == HISTORY))
            && s[8..40] == version && s[40..44] == [0, 1, 0, 0]
  {
    hide Int32Bytes, Int32Of;
    if |s| >= 44 {
      assert s[4..][..4] == s[4..8] && s[4..][4..] == s[8..];
      assert s[8..][..32] == s[8..40] && s[8..][32..] == s[40..];
      assert s[40..][..4] == s[40..44] && s[40..][4..] == s[44..];
      Int32IsBytes(s[4..8], format);
      Count256(s[40..44]);
    }
  }

  lemma Int32IsBytes(b: Bytes, n: int)
    requires IsInt32(n) && |b| == 4
    ensures b == Int32Bytes(n) <==> Int32Of(b) == n
  {
    hide Int32Bytes, Int32Of;
    Int32OfBytes(b);
    Int32RoundTrip(n);
  }

  lemma Count256(b: Bytes)
    requires |b| == 4
    ensures Int32Of(b) == 256 <==> b == [0, 1, 0, 0]
  {
    Int32IsBytes(b, 256);
    assert Int32Bytes(256) == [0, 1, 0, 0];
  }

  // ---------------------------------------------------------------- what is read was there

  lemma Int32TakeApart(s: Bytes, n: int, rest: Bytes)
    requires ReadInt32(s) == Got(n, rest)
    ensures IsInt32(n) && s == Int32Bytes(n) + rest
  {
    hide Int32Bytes, Int32Of;
    Int32OfBytes(s[..4]);
  }

  lemma PathTakeApart(s: Bytes, p: Path, rest: Bytes)
    requires ReadPath(s) == Got(p, rest)
    ensures |p| <= 4096 && s == Blob(p) + rest
  {
    hide Int32Bytes, ReadInt32;
    var len := ReadInt32(s);
    Int32TakeApart(s, len.value, len.rest);
    assert len.rest == p + rest;
    Regroup(Int32Bytes(|p|), p, rest);
  }

  lemma {:induction false} PathsTakeApart(read: seq<Path>, n: nat, s: Bytes, all: seq<Path>, rest: Bytes)
    returns (ps: seq<Path>)
    requires ReadPaths(read, n, s) == Got(all, rest)
    ensures |ps| == n && all == read + ps && ShortPaths(ps) && s == PathsBytes(ps) + rest
    decreases n
  {
    hide ReadPath, Blob;
    if n == 0 {
      ps := [];
      assert read + [] == read && PathsBytes([]) + rest == rest;
    } else {
      var p := ReadPath(s);
      PathTakeApart(s, p.value, p.rest);
      var more := PathsTakeApart(read + [p.value], n - 1, p.rest, all, rest);
      ps := [p.value] + more;
      assert ps[0] == p.value && ps[1..] == more;
      ShortTail(ps);
      Regroup(Blob(p.value), PathsBytes(more), rest);
      assert read + [p.value] + more == read + ps;
    }
  }

  lemma PayloadTakeApart(schema: Schema, s: Bytes, p: Payload, rest: Bytes)
    requires ReadPayload(schema, s) == Got(p, rest)
    ensures SizedPayload(schema, p) && LoadablePayload(p) && s == PayloadBytes(schema, p) + rest
  {
    hide Int32Bytes, ReadInt32, ReadPaths, PathsBytes, ReadBytes;
    if schema.history {
      assert ReadBytes(DIGEST_LENGTH, s) == Got(p.digest, rest);
      BytesTakeApart(DIGEST_LENGTH, s);
    } else {
      var n := ReadInt32(s);
      Int32TakeApart(s, n.value, n.rest);
      var ps := PathsTakeApart([], n.value, n.rest, p.paths, rest);
      assert [] + ps == ps;
      Regroup(Int32Bytes(n.value), PathsBytes(ps), rest);
    }
  }

  lemma BytesTakeApart(n: nat, s: Bytes)
    requires ReadBytes(n, s).Got?
    ensures ReadBytes(n, s).value + ReadBytes(n, s).rest == s && |ReadBytes(n, s).value| == n
  {
  }

  // ---------------------------------------------------------------- one map

  /** An entry as it stands in a file. */
  datatype Item = Item(path: Path, payload: Payload)

  predicate GoodItems(schema: Schema, items: seq<Item>) {
    && |items| <= INT32_MAX
    && forall i :: 0 <= i < |items| ==>
         SizedPayload(schema, items[i].payload) && LoadableEntry(items[i].path, items[i].payload)
  }

  function ItemsBytes(schema: Schema, items: seq<Item>): Bytes
    requires GoodItems(schema, items)
  {
    if items == [] then []
    else EntryBytes(schema, items[0].path, items[0].payload) + ItemsBytes(schema, items[1..])
  }

  /** The entry at `i` is the last one for its path. */
  predicate IsLast(items: seq<Item>, i: nat)
    requires i < |items|
  {
    forall j :: i < j < |items| ==> items[j].path != items[i].path
  }

  predicate Lists(items: seq<Item>, p: Path) {
    exists i :: 0 <= i < |items| && items[i].path == p
  }

  /** Every path of the list has the payload of its last entry; other paths are as in `before`. */
  ghost predicate LastWins(before: Entries, items: seq<Item>, m: Entries) {
    && (forall p :: p in m <==> p in before || Lists(items, p))
    && (forall i: nat :: i < |items| && IsLast(items, i) ==>
          items[i].path in m && m[items[i].path] == items[i].payload)
    && (forall p :: p in before && !Lists(items, p) ==> p in m && m[p] == before[p])
  }

  lemma LastWinsOnce(before: Entries, items: seq<Item>, m: Entries, n: Entries)
    requires LastWins(before, items, m) && LastWins(before, items, n)
    ensures m == n
  {
    forall p | p in m ensures m[p] == n[p] {
      if Lists(items, p) {
        var i := LastOf(items, p);
      }
    }
  }

  lemma {:induction false} LastOf(items: seq<Item>, p: Path) returns (i: nat)
    requires Lists(items, p)
    ensures i < |items| && items[i].path == p && IsLast(items, i)
    decreases |items|
  {
    var last := |items| - 1;
    if items[last].path == p {
      i := last;
    } else {
      i := LastOf(items[..last], p);
    }
  }

  lemma ListsStep(items: seq<Item>, p: Path)
    requires items != []
    ensures Lists(items, p) <==> items[0].path == p || Lists(items[1..], p)
  {
    if i :| 0 < i < |items| && items[i].path == p {
      assert items[1..][i - 1].path == p;
    }
    if i :| 0 <= i < |items[1..]| && items[1..][i].path == p {
      assert items[i + 1].path == p;
    }
  }

  lemma IsLastStep(items: seq<Item>, i: nat)
    requires i < |items| && IsLast(items, i)
    ensures if i == 0 then !Lists(items[1..], items[0].path) else IsLast(items[1..], i - 1)
  {
    assert forall j :: 0 <= j < |items| - 1 ==> items[1..][j] == items[j + 1];
  }

  lemma LastWinsStep(before: Entries, items: seq<Item>, m: Entries)
    requires items != [] && LastWins(before[items[0].path := items[0].payload], items[1..], m)
    ensures LastWins(before, items, m)
  {
    hide Lists, IsLast;
    var rest := items[1..];
    forall p ensures Lists(items, p) <==> items[0].path == p || Lists(rest, p) {
      ListsStep(items, p);
    }
    forall i: nat | i < |items| && IsLast(items, i)
      ensures items[i].path in m && m[items[i].path] == items[i].payload
    {
      IsLastStep(items, i);
      if i > 0 {
        assert items[i] == rest[i - 1];
      }
    }
  }

  lemma EntryRead(schema: Schema, path: Path, p: Payload, rest: Bytes)
    requires |path| <= INT32_MAX && SizedPayload(schema, p) && LoadableEntry(path, p)
    ensures ReadPath(EntryBytes(schema, path, p) + rest) == Got(path, PayloadBytes(schema, p) + rest)
    ensures ReadPayload(schema, PayloadBytes(schema, p) + rest) == Got(p, rest)
  {
    hide ReadPath, ReadPayload, PayloadBytes, Blob, LoadablePayload;
    Regroup(Blob(path), PayloadBytes(schema, p), rest);
    ReadPathOf(path, PayloadBytes(schema, p) + rest);
    ReadPayloadOf(schema, p, rest);
  }

  lemma {:induction false} ItemsRead(schema: Schema, read: Entries, items: seq<Item>, rest: Bytes)
    returns (m: Entries)
    requires GoodItems(schema, items)
    ensures ReadEntries(schema, read, |items|, ItemsBytes(schema, items) + rest) == Got(m, rest)
    ensures LastWins(read, items, m)
    decreases |items|
  {
    hide ReadPath, ReadPayload, PayloadBytes, EntryBytes, SizedPayload, LoadableEntry;
    if items == [] {
      m := read;
      assert ItemsBytes(schema, items) + rest == rest;
    } else {
      var path, p, more := items[0].path, items[0].payload, items[1..];
      assert SizedPayload(schema, p) && LoadableEntry(path, p);
      assert GoodItems(schema, more);
      ShortEntry(path, p);
      Regroup(EntryBytes(schema, path, p), ItemsBytes(schema, more), rest);
      EntryRead(schema, path, p, ItemsBytes(schema, more) + rest);
      m := ItemsRead(schema, read[path := p], more, rest);
      LastWinsStep(read, items, m);
    }
  }

  lemma ShortEntry(path: Path, p: Payload)
    requires LoadableEntry(path, p)
    ensures |path| <= INT32_MAX
  {
  }

  lemma {:induction false} ItemsTakeApart(
    schema: Schema, read: Entries, n: nat, s: Bytes, m: Entries, rest: Bytes) returns (items: seq<Item>)
    requires n <= INT32_MAX && ReadEntries(schema, read, n, s) == Got(m, rest)
    ensures |items| == n && GoodItems(schema, items) && s == ItemsBytes(schema, items) + rest
    decreases n
  {
    hide ReadPath, ReadPayload, PayloadBytes, Blob, SizedPayload, LoadablePayload;
    if n == 0 {
      items := [];
      assert ItemsBytes(schema, items) + rest == rest;
    } else {
      var path := ReadPath(s);
      PathTakeApart(s, path.value, path.rest);
      var p := ReadPayload(schema, path.rest);
      PayloadTakeApart(schema, path.rest, p.value, p.rest);
      var more := ItemsTakeApart(schema, read[path.value := p.value], n - 1, p.rest, m, rest);
      items := [Item(path.value, p.value)] + more;
      assert items[1..] == more;
      Regroup(Blob(path.value), PayloadBytes(schema, p.value), p.rest);
      Regroup(EntryBytes(schema, path.value, p.value), ItemsBytes(schema, more), rest);
    }
  }

  /** A map is read exactly from its number of entries and these, each within the limits; of several entries
      for one path the last one counts. */
  lemma MapExactly(schema: Schema, s: Bytes, m: Entries, rest: Bytes)
    ensures ReadMap(schema, s) == Got(m, rest) <==> exists items :: SpellsMap(schema, s, items, m, rest)
  {
    hide ReadEntries, ReadInt32, Int32Bytes, ItemsBytes, GoodItems, LastWins;
    if ReadMap(schema, s) == Got(m, rest) {
      var n := ReadInt32(s);
      Int32TakeApart(s, n.value, n.rest);
      var items := ItemsTakeApart(schema, map[], n.value, n.rest, m, rest);
      Regroup(Int32Bytes(n.value), ItemsBytes(schema, items), rest);
      var m' := ItemsRead(schema, map[], items, rest);
      assert SpellsMap(schema, s, items, m, rest);
    }
    if items :| SpellsMap(schema, s, items, m, rest) {
      MapRead(schema, s, items, m, rest);
    }
  }

  ghost predicate SpellsMap(schema: Schema, s: Bytes, items: seq<Item>, m: Entries, rest: Bytes) {
    GoodItems(schema, items) && s == Int32Bytes(|items|) + ItemsBytes(schema, items) + rest && LastWins(map[], items, m)
  }

  lemma MapRead(schema: Schema, s: Bytes, items: seq<Item>, m: Entries, rest: Bytes)
    requires SpellsMap(schema, s, items, m, rest)
    ensures ReadMap(schema, s) == Got(m, rest)
  {
    hide ReadEntries, ReadInt32, Int32Bytes, ItemsBytes, LastWins;
    Regroup(Int32Bytes(|items|), ItemsBytes(schema, items), rest);
    ReadInt32Of(|items|, ItemsBytes(schema, items) + rest);
    var m' := ItemsRead(schema, map[], items, rest);
    LastWinsOnce(map[], items, m, m');
  }

  // ---------------------------------------------------------------- the whole archive

  /** One partition as it stands in a file. */
  datatype Sheet = Sheet(main: seq<Item>, content: seq<Item>)

  predicate GoodSheet(schema: Schema, sheet: Sheet) {
    GoodItems(schema, sheet.main) && GoodItems(schema, sheet.content)
  }

  predicate GoodSheets(schema: Schema, sheets: seq<Sheet>) {
    forall i :: 0 <= i < |sheets| ==> GoodSheet(schema, sheets[i])
  }

  function MapText(schema: Schema, items: seq<Item>): Bytes
    requires GoodItems(schema, items)
  {
    Int32Bytes(|items|) + ItemsBytes(schema, items)
  }

  /** The main map, and in the later history format the map of content hashes behind it. */
  function SheetText(schema: Schema, two: bool, sheet: Sheet): Bytes
    requires GoodSheet(schema, sheet)
  {
    if two then MapText(schema, sheet.main) + MapText(schema, sheet.content) else MapText(schema, sheet.main)
  }

  function SheetsText(schema: Schema, two: bool, sheets: seq<Sheet>): Bytes
    requires GoodSheets(schema, sheets)
  {
    if sheets == [] then [] else SheetText(schema, two, sheets[0]) + SheetsText(schema, two, sheets[1..])
  }

  ghost predicate Holds(two: bool, sheet: Sheet, part: Partition) {
    LastWins(map[], sheet.main, part.main)
    && if two then LastWins(map[], sheet.content, part.content) else part.content == map[]
  }

  lemma MapOfItems(schema: Schema, items: seq<Item>, m: Entries, rest: Bytes)
    requires GoodItems(schema, items) && LastWins(map[], items, m)
    ensures ReadMap(schema, MapText(schema, items) + rest) == Got(m, rest)
  {
    hide ReadMap, Int32Bytes, ItemsBytes, GoodItems, LastWins;
    assert SpellsMap(schema, MapText(schema, items) + rest, items, m, rest);
    MapExactly(schema, MapText(schema, items) + rest, m, rest);
  }

  lemma MapTakeApart(schema: Schema, s: Bytes, m: Entries, rest: Bytes) returns (items: seq<Item>)
    requires ReadMap(schema, s) == Got(m, rest)
    ensures GoodItems(schema, items) && LastWins(map[], items, m) && s == MapText(schema, items) + rest
  {
    hide ReadMap, Int32Bytes, ItemsBytes, GoodItems, LastWins;
    MapExactly(schema, s, m, rest);
    items :| SpellsMap(schema, s, items, m, rest);
  }

  lemma SheetRead(schema: Schema, two: bool, sheet: Sheet, part: Partition, rest: Bytes)
    requires GoodSheet(schema, sheet) && Holds(two, sheet, part)
    ensures ReadPartition(schema, two, SheetText(schema, two, sheet) + rest) == Got(part, rest)
  {
    hide ReadMap, MapText, GoodItems, LastWins;
    if two {
      Regroup(MapText(schema, sheet.main), MapText(schema, sheet.content), rest);
      MapOfItems(schema, sheet.main, part.main, MapText(schema, sheet.content) + rest);
      MapOfItems(schema, sheet.content, part.content, rest);
    } else {
      MapOfItems(schema, sheet.main, part.main, rest);
    }
  }

  lemma SheetTakeApart(schema: Schema, two: bool, s: Bytes, part: Partition, rest: Bytes) returns (sheet: Sheet)
    requires ReadPartition(schema, two, s) == Got(part, rest)
    ensures GoodSheet(schema, sheet) && Holds(two, sheet, part) && s == SheetText(schema, two, sheet) + rest
  {
    hide ReadMap, MapText, LastWins, SizedPayload, LoadableEntry;
    var main := ReadMap(schema, s);
    var items := MapTakeApart(schema, s, main.value, main.rest);
    sheet := Sheet(items, []);
    if two {
      var content := MapTakeApart(schema, main.rest, part.content, rest);
      sheet := Sheet(items, content);
      Regroup(MapText(schema, items), MapText(schema, content), rest);
    }
  }

  lemma {:induction false} SheetsRead(
    schema: Schema, two: bool, read: seq<Partition>, sheets: seq<Sheet>, parts: seq<Partition>, rest: Bytes)
    requires GoodSheets(schema, sheets) && |parts| == |sheets|
    requires forall i :: 0 <= i < |sheets| ==> Holds(two, sheets[i], parts[i])
    ensures ReadPartitions(schema, two, read, |sheets|, SheetsText(schema, two, sheets) + rest)
         == Got(read + parts, rest)
    decreases |sheets|
  {
    hide ReadPartition, SheetText, GoodSheet, Holds;
    if sheets == [] {
      assert SheetsText(schema, two, sheets) + rest == rest && read + parts == read;
    } else {
      var more := sheets[1..];
      assert Holds(two, sheets[0], parts[0]);
      assert forall i :: 0 <= i < |more| ==> Holds(two, more[i], parts[1..][i]);
      Regroup(SheetText(schema, two, sheets[0]), SheetsText(schema, two, more), rest);
      SheetRead(schema, two, sheets[0], parts[0], SheetsText(schema, two, more) + rest);
      SheetsRead(schema, two, read + [parts[0]], more, parts[1..], rest);
      assert read + [parts[0]] + parts[1..] == read + parts;
    }
  }

  lemma {:induction false} SheetsTakeApart(
    schema: Schema, two: bool, read: seq<Partition>, n: nat, s: Bytes, all: seq<Partition>, rest: Bytes)
    returns (sheets: seq<Sheet>)
    requires ReadPartitions(schema, two, read, n, s) == Got(all, rest)
    ensures |sheets| == n && |all| == |read| + n && all[..|read|] == read
    ensures GoodSheets(schema, sheets) && s == SheetsText(schema, two, sheets) + rest
    ensures forall i :: 0 <= i < n ==> Holds(two, sheets[i], all[|read| + i])
    decreases n
  {
    hide ReadPartition, SheetText, GoodSheet, Holds;
    if n == 0 {
      sheets := [];
      assert SheetsText(schema, two, sheets) + rest == rest;
    } else {
      var part := ReadPartition(schema, two, s);
      var sheet := SheetTakeApart(schema, two, s, part.value, part.rest);
      var next := read + [part.value];
      var more := SheetsTakeApart(schema, two, next, n - 1, part.rest, all, rest);
      sheets := [sheet] + more;
      assert sheets[1..] == more;
      assert all[..|next|][..|read|] == read && all[|read|] == all[..|next|][|read|];
      Regroup(SheetText(schema, two, sheet), SheetsText(schema, two, more), rest);
      forall i | 0 <= i < n ensures Holds(two, sheets[i], all[|read| + i]) {
        if i > 0 {
          assert Holds(two, more[i - 1], all[|next| + (i - 1)]);
        }
      }
    }
  }

  /** A header of this kind of archive, and behind it 256 partitions that hold these. */
  ghost predicate SpellsArchive(
    schema: Schema, version: IoHash, s: Bytes, format: int, sheets: seq<Sheet>, rest: Bytes, parts: seq<Partition>)
  {
    && (format == 1 || (format == 2 && schema == HISTORY))
    && |s| >= 44 && s[..4] == (if schema == HISTORY then [0x58, 0x41, 0x48, 0x31] else [0x58, 0x43, 0x44, 0x43])
    && s[4..8] == Int32Bytes(format) && s[8..40] == version && s[40..44] == [0, 1, 0, 0]
    && |sheets| == |parts| == 256 && GoodSheets(schema, sheets)
    && s[44..] == SheetsText(schema, format == 2, sheets) + rest
    && forall i :: 0 <= i < |parts| ==> Holds(format == 2, sheets[i], parts[i])
  }

  ghost predicate Says(schema: Schema, version: IoHash, s: Bytes, parts: seq<Partition>) {
    exists format, sheets, rest :: SpellsArchive(schema, version, s, format, sheets, rest, parts)
  }

  lemma ArchiveExactly(schema: Schema, version: IoHash, s: Bytes, parts: seq<Partition>)
    requires Known(schema)
    ensures ReadArchive(schema, version, s).Got? && ReadArchive(schema, version, s).value == parts
       <==> Says(schema, version, s, parts)
  {
    hide ReadHeader, ReadPartitions, SheetsText, GoodSheet, Holds, Int32Bytes;
    var r := ReadArchive(schema, version, s);
    if r.Got? && r.value == parts {
      var header := ReadHeader(schema, version, s);
      HeaderFormat(schema, version, s);
      HeaderExactly(schema, version, s, header.value, header.rest);
      var sheets := SheetsTakeApart(schema, header.value == 2, [], 256, header.rest, parts, r.rest);
      assert SpellsArchive(schema, version, s, header.value, sheets, r.rest, parts);
    }
    if format, sheets, rest :| SpellsArchive(schema, version, s, format, sheets, rest, parts) {
      HeaderExactly(schema, version, s, format, s[44..]);
      SheetsRead(schema, format == 2, [], sheets, parts, rest);
      assert [] + parts == parts;
    }
  }

  lemma HeaderFormat(schema: Schema, version: IoHash, s: Bytes)
    requires Known(schema) && ReadHeader(schema, version, s).Got?
    ensures IsInt32(ReadHeader(schema, version, s).value)
    ensures TwoMaps(schema, ReadHeader(schema, version, s).value) <==> ReadHeader(schema, version, s).value == 2
  {
  }

  /** A load leaves exactly what the bytes say, and nothing when they say nothing. */
  lemma LoadsExactly(schema: Schema, version: IoHash, s: Bytes, parts: seq<Partition>)
    requires Known(schema)
    ensures Load(schema, version, s) == parts
       <==> Says(schema, version, s, parts)
            || ((forall qs :: !Says(schema, version, s, qs)) && |parts| == 256
                && forall i :: 0 <= i < 256 ==> parts[i] == Partition(map[], map[]))
  {
    hide ReadArchive, Says;
    forall qs
      ensures Says(schema, version, s, qs)
         <==> ReadArchive(schema, version, s).Got? && ReadArchive(schema, version, s).value == qs
    {
      ArchiveExactly(schema, version, s, qs);
    }
    if ReadArchive(schema, version, s).Got? {
      assert Says(schema, version, s, ReadArchive(schema, version, s).value);
    }
  }

  // ---------------------------------------------------------------- what a save writes

  /** One entry: the length of the path, the path, and the digest, or the headers counted and each behind its
      length. */
  lemma EntryLayout(p: Path, digest: IoHash, h: Path, k: Path)
    requires |p| <= INT32_MAX && |h| <= INT32_MAX && |k| <= INT32_MAX
    ensures EntryBytes(HISTORY, p, Hash(digest)) == Int32Bytes(|p|) + p + digest
    ensures EntryBytes(DEPENDENCIES, p, Headers([h, k]))
         == Int32Bytes(|p|) + p + ([2, 0, 0, 0] + ((Int32Bytes(|h|) + h) + (Int32Bytes(|k|) + k)))
  {
    assert Int32Bytes(2) == [2, 0, 0, 0];
    hide Int32Bytes;
    var paths := [h, k];
    assert paths[1..] == [k] && [k][1..] == [];
    assert PathsBytes([k]) == Int32Bytes(|k|) + k + [];
    assert PathsBytes([k]) == Int32Bytes(|k|) + k;
    assert PathsBytes(paths) == (Int32Bytes(|h|) + h) + (Int32Bytes(|k|) + k);
  }

  /** The entries of a map follow one another in the order of the list. */
  lemma {:induction false} EntriesInOrder(schema: Schema, keys: seq<Path>, m: Entries, i: nat)
    requires Writable(schema, keys, m) && i < |keys|
    ensures EntriesBytes(schema, keys, m)
         == EntriesBytes(schema, keys[..i], m)
            + (EntryBytes(schema, keys[i], m[keys[i]]) + EntriesBytes(schema, keys[i + 1..], m))
    decreases i
  {
    hide EntryBytes, SizedPayload;
    var first, tail := EntryBytes(schema, keys[0], m[keys[0]]), keys[1..];
    if i == 0 {
      assert EntriesBytes(schema, keys[..0], m) == [];
    } else {
      EntriesInOrder(schema, tail, m, i - 1);
      assert keys[..i][1..] == tail[..i - 1] && tail[i..] == keys[i + 1..];
      Regroup(first, EntriesBytes(schema, tail[..i - 1], m),
              EntryBytes(schema, keys[i], m[keys[i]]) + EntriesBytes(schema, keys[i + 1..], m));
    }
  }

  /** A map is saved as its size and its entries, each path once, the paths increasing. */
  lemma MapLayout(schema: Schema, m: Entries) returns (keys: seq<Path>)
    requires Sized(schema, m)
    ensures Writable(schema, keys, m) && MapBytes(schema, m) == Int32Bytes(|m|) + EntriesBytes(schema, keys, m)
    ensures forall p :: p in keys <==> p in m
    ensures forall i, j :: 0 <= i < j < |keys| ==> Precedes(keys[i], keys[j])
  {
    keys := Sorted(m.Keys);
    IncreasingPrecedes(keys);
  }

  ghost predicate AllSized(schema: Schema, parts: seq<Partition>) {
    forall i :: 0 <= i < |parts| ==> SizedPartition(schema, parts[i])
  }

  /** The partitions follow one another in order, each with its main map first. */
  lemma {:induction false} PartitionsInOrder(
    schema: Schema, two: bool, parts: seq<Partition>, before: seq<Partition>, part: Partition, after: seq<Partition>)
    requires parts == before + ([part] + after)
    requires AllSized(schema, parts) && AllSized(schema, before) && AllSized(schema, after)
    requires SizedPartition(schema, part)
    ensures var maps := MapBytes(schema, part.main) + if two then MapBytes(schema, part.content) else [];
            PartitionsBytes(schema, two, parts)
            == PartitionsBytes(schema, two, before) + (maps + PartitionsBytes(schema, two, after))
    decreases |before|
  {
    hide MapBytes, SizedPartition;
    var tail := parts[1..];
    assert forall k :: 0 <= k < |tail| ==> tail[k] == parts[k + 1];
    if before == [] {
      assert tail == after && parts[0] == part;
    } else {
      var front := before[1..];
      assert tail == front + ([part] + after) && parts[0] == before[0];
      assert forall k :: 0 <= k < |front| ==> front[k] == before[k + 1];
      PartitionsInOrder(schema, two, tail, front, part, after);
      Regroup(PartitionBytes(schema, two, parts[0]), PartitionsBytes(schema, two, front),
              PartitionBytes(schema, two, part) + PartitionsBytes(schema, two, after));
    }
  }

  lemma MagicAndFormat(schema: Schema)
    requires Known(schema)
    ensures schema.magic + Int32Bytes(schema.format)
         == if schema == HISTORY then [0x58, 0x41, 0x48, 0x31, 2, 0, 0, 0] else [0x58, 0x43, 0x44, 0x43, 1, 0, 0, 0]
    ensures Int32Bytes(PARTITION_COUNT) == [0, 1, 0, 0]
    ensures TwoMaps(schema, schema.format) <==> schema == HISTORY
  {
  }

  /** The magic, the current format, the version, the number of partitions, and the partitions. */
  lemma SaveLayout(schema: Schema, version: IoHash, parts: seq<Partition>)
    requires Known(schema) && Storable(schema, parts)
    ensures SaveBytes(schema, version, parts)
         == (if schema == HISTORY then [0x58, 0x41, 0x48, 0x31, 2, 0, 0, 0] else [0x58, 0x43, 0x44, 0x43, 1, 0, 0, 0])
            + version + [0, 1, 0, 0] + PartitionsBytes(schema, schema == HISTORY, parts)
  {
    MagicAndFormat(schema);
    hide Int32Bytes, PartitionsBytes, SizedPartition, TwoMaps;
  }
}
