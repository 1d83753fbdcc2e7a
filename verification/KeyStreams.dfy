/** The byte streams that are hashed into action keys, and why different actions have different streams. */
module KeyStreams {
  import opened Wrappers
  import opened Bytes
  import opened LittleEndian

  /** The fields of an action that its command version covers. Texts are in their UTF-8 form. */
  datatype Command = Command(
    actionType: int, path: Bytes, arguments: seq<Bytes>, responseFile: Option<Bytes>, directory: Bytes,
    components: seq<Bytes>, configuration: int, platform: int, simPath: bool)

  predicate Short(b: Bytes) {
    |b| <= INT32_MAX
  }

  predicate ShortList(bs: seq<Bytes>) {
    |bs| <= INT32_MAX && forall i :: 0 <= i < |bs| ==> |bs[i]| <= INT32_MAX
  }

  predicate ShortOption(b: Option<Bytes>) {
    b.Some? ==> Short(b.value)
  }

  /** Enumeration ordinals and lengths are 32-bit. */
  predicate Encodable(c: Command) {
    && IsInt32(c.actionType) && IsInt32(c.configuration) && IsInt32(c.platform)
    && Short(c.path) && Short(c.directory) && ShortOption(c.responseFile)
    && ShortList(c.arguments) && ShortList(c.components)
  }

  // ---------------------------------------------------------------- the streams

  function Blobs(bs: seq<Bytes>): Bytes
    requires forall i :: 0 <= i < |bs| ==> |bs[i]| <= INT32_MAX
  {
    if bs == [] then [] else Blob(bs[0]) + Blobs(bs[1..])
  }

  function List(bs: seq<Bytes>): Bytes
    requires ShortList(bs)
  {
    Int32Bytes(|bs|) + Blobs(bs)
  }

  /** A missing text is told apart by the length -1. */
  function Nullable(b: Option<Bytes>): Bytes
    requires ShortOption(b)
  {
    if b.None? then Int32Bytes(-1) else Blob(b.value)
  }

  function Flag(b: bool): Bytes {
    if b then [1] else [0]
  }

  function CommandStream(c: Command): Bytes
    requires Encodable(c)
  {
    Int32Bytes(c.actionType) + (Blob(c.path) + (List(c.arguments) + (Nullable(c.responseFile) + (Blob(c.directory)
      + (List(c.components) + (Int32Bytes(c.configuration) + (Int32Bytes(c.platform) + Flag(c.simPath))))))))
  }

  function ActionStream(
    version: IoHash, commandVersion: IoHash, contract: Bytes, responseFile: Option<Bytes>, components: seq<Bytes>)
    : Bytes
    requires Short(contract) && ShortOption(responseFile) && ShortList(components)
  {
    version + (commandVersion + (Blob(contract) + (Nullable(responseFile) + List(components))))
  }

  // ---------------------------------------------------------------- telling streams apart

  lemma {:induction false} BlobsPrefixFree(a: seq<Bytes>, b: seq<Bytes>, r: Bytes, s: Bytes)
    requires ShortList(a) && ShortList(b) && |a| == |b| && Blobs(a) + r == Blobs(b) + s
    ensures a == b && r == s
    decreases |a|
  {
    if a == [] {
      assert Blobs(a) + r == r && Blobs(b) + s == s;
    } else {
      assert Blobs(a) + r == Blob(a[0]) + (Blobs(a[1..]) + r);
      assert Blobs(b) + s == Blob(b[0]) + (Blobs(b[1..]) + s);
      BlobPrefixFree(a[0], b[0], Blobs(a[1..]) + r, Blobs(b[1..]) + s);
      BlobsPrefixFree(a[1..], b[1..], r, s);
      assert a == [a[0]] + a[1..] && b == [b[0]] + b[1..];
    }
  }

  lemma ListPrefixFree(a: seq<Bytes>, b: seq<Bytes>, r: Bytes, s: Bytes)
    requires ShortList(a) && ShortList(b) && List(a) + r == List(b) + s
    ensures a == b && r == s
  {
    hide Int32Bytes, Blobs;
    assert List(a) + r == Int32Bytes(|a|) + (Blobs(a) + r);
    assert List(b) + s == Int32Bytes(|b|) + (Blobs(b) + s);
    Int32PrefixFree(|a|, |b|, Blobs(a) + r, Blobs(b) + s);
    BlobsPrefixFree(a, b, r, s);
  }

  lemma NullablePrefixFree(a: Option<Bytes>, b: Option<Bytes>, r: Bytes, s: Bytes)
    requires ShortOption(a) && ShortOption(b) && Nullable(a) + r == Nullable(b) + s
    ensures a == b && r == s
  {
    hide Int32Bytes;
    var m, x := if a.None? then -1 else |a.value|, if a.None? then r else a.value + r;
    var n, y := if b.None? then -1 else |b.value|, if b.None? then s else b.value + s;
    assert Nullable(a) + r == Int32Bytes(m) + x && Nullable(b) + s == Int32Bytes(n) + y;
    Int32PrefixFree(m, n, x, y);
    if a.Some? {
      SplitEqual(a.value, b.value, r, s);
    }
  }

  /** Two commands have the same stream exactly if all their hashed fields are equal. */
  lemma CommandStreamInjective(c: Command, d: Command)
    requires Encodable(c) && Encodable(d)
    ensures CommandStream(c) == CommandStream(d) <==> c == d
  {
    hide Int32Bytes, Blob, List, Nullable;
    if CommandStream(c) == CommandStream(d) {
      var c8, d8 := Int32Bytes(c.platform) + Flag(c.simPath), Int32Bytes(d.platform) + Flag(d.simPath);
      var c7, d7 := Int32Bytes(c.configuration) + c8, Int32Bytes(d.configuration) + d8;
      var c6, d6 := List(c.components) + c7, List(d.components) + d7;
      var c5, d5 := Blob(c.directory) + c6, Blob(d.directory) + d6;
      var c4, d4 := Nullable(c.responseFile) + c5, Nullable(d.responseFile) + d5;
      var c3, d3 := List(c.arguments) + c4, List(d.arguments) + d4;
      Int32PrefixFree(c.actionType, d.actionType, Blob(c.path) + c3, Blob(d.path) + d3);
      BlobPrefixFree(c.path, d.path, c3, d3);
      ListPrefixFree(c.arguments, d.arguments, c4, d4);
      NullablePrefixFree(c.responseFile, d.responseFile, c5, d5);
      BlobPrefixFree(c.directory, d.directory, c6, d6);
      ListPrefixFree(c.components, d.components, c7, d7);
      Int32PrefixFree(c.configuration, d.configuration, c8, d8);
      Int32PrefixFree(c.platform, d.platform, Flag(c.simPath), Flag(d.simPath));
      assert Flag(c.simPath)[0] == Flag(d.simPath)[0];
    }
  }

  /** The stream of an action key gives every part of it back. */
  lemma ActionStreamInjective(
    v: IoHash, c: IoHash, t: Bytes, r: Option<Bytes>, ks: seq<Bytes>,
    v': IoHash, c': IoHash, t': Bytes, r': Option<Bytes>, ks': seq<Bytes>)
    requires Short(t) && ShortOption(r) && ShortList(ks) && Short(t') && ShortOption(r') && ShortList(ks')
    ensures ActionStream(v, c, t, r, ks) == ActionStream(v', c', t', r', ks')
       <==> v == v' && c == c' && t == t' && r == r' && ks == ks'
  {
    hide Int32Bytes, Blob, List, Nullable;
    if ActionStream(v, c, t, r, ks) == ActionStream(v', c', t', r', ks') {
      var x4, y4 := Nullable(r) + List(ks), Nullable(r') + List(ks');
      var x3, y3 := Blob(t) + x4, Blob(t') + y4;
      SplitEqual(v, v', c + x3, c' + y3);
      SplitEqual(c, c', x3, y3);
      BlobPrefixFree(t, t', x4, y4);
      NullablePrefixFree(r, r', List(ks), List(ks'));
      assert List(ks) + [] == List(ks) && List(ks') + [] == List(ks');
      ListPrefixFree(ks, ks', [], []);
    }
  }

  // ---------------------------------------------------------------- the layout of the streams

  lemma ListLayout(a: Bytes, b: Bytes)
    requires Short(a) && Short(b)
    ensures List([]) == [0, 0, 0, 0]
    ensures List([a]) == [1, 0, 0, 0] + (Int32Bytes(|a|) + a)
    ensures List([a, b]) == [2, 0, 0, 0] + ((Int32Bytes(|a|) + a) + (Int32Bytes(|b|) + b))
  {
    assert Int32Bytes(0) == [0, 0, 0, 0] && Int32Bytes(1) == [1, 0, 0, 0] && Int32Bytes(2) == [2, 0, 0, 0];
    assert Blob(a) == Int32Bytes(|a|) + a && Blob(b) == Int32Bytes(|b|) + b;
    hide Int32Bytes;
    var none: seq<Bytes>, two: seq<Bytes> := [], [a, b];
    assert two[1..] == [b] && [a][1..] == none && [b][1..] == none;
    hide Blob;
    assert Blobs(none) == [];
    assert Blobs([a]) == Blob(a) + Blobs(none) == Blob(a);
    assert Blobs([b]) == Blob(b) + Blobs(none) == Blob(b);
    assert Blobs(two) == Blob(a) + Blobs([b]);
  }

  /** The fields of a command in their order: lists behind their counts, texts behind their lengths, a missing
      response file as the length -1, and the flag as one byte. */
  lemma CommandLayout(c: Command, a: Bytes, b: Bytes, k: Bytes)
    requires Encodable(c) && Short(a) && Short(b) && Short(k) && c.arguments == [a, b] && c.components == [k]
    ensures CommandStream(c)
         == Int32Bytes(c.actionType) + ((Int32Bytes(|c.path|) + c.path)
            + (([2, 0, 0, 0] + ((Int32Bytes(|a|) + a) + (Int32Bytes(|b|) + b)))
            + ((if c.responseFile.None? then [0xff, 0xff, 0xff, 0xff]
                else Int32Bytes(|c.responseFile.value|) + c.responseFile.value)
            + ((Int32Bytes(|c.directory|) + c.directory)
            + (([1, 0, 0, 0] + (Int32Bytes(|k|) + k))
            + (Int32Bytes(c.configuration) + (Int32Bytes(c.platform) + [if c.simPath then 1 else 0])))))))
  {
    assert Int32Bytes(-1) == [0xff, 0xff, 0xff, 0xff];
    ListLayout(a, b);
    ListLayout(k, k);
    hide Int32Bytes, List;
  }

  /** An action key hashes the schema version, the command version, the contract version, the response file and
      the components. */
  lemma ActionLayout(v: IoHash, d: IoHash, contract: Bytes, response: Option<Bytes>, a: Bytes, b: Bytes)
    requires Short(contract) && ShortOption(response) && Short(a) && Short(b)
    ensures ActionStream(v, d, contract, response, [a, b])
         == v + (d + ((Int32Bytes(|contract|) + contract)
            + ((if response.None? then [0xff, 0xff, 0xff, 0xff] else Int32Bytes(|response.value|) + response.value)
            + ([2, 0, 0, 0] + ((Int32Bytes(|a|) + a) + (Int32Bytes(|b|) + b))))))
  {
    assert Int32Bytes(-1) == [0xff, 0xff, 0xff, 0xff];
    ListLayout(a, b);
    hide Int32Bytes, List;
  }

  // ---------------------------------------------------------------- the keys

  /** The schema version, the contract version and the hash function of one build tool. */
  datatype Tool = Tool(version: IoHash, contract: Bytes, digest: Bytes -> IoHash)

  function CommandVersion(tool: Tool, c: Command): IoHash
    requires Encodable(c)
  {
    tool.digest(CommandStream(c))
  }

  function ActionKey(tool: Tool, c: Command): IoHash
    requires Encodable(c) && Short(tool.contract)
  {
    tool.digest(ActionStream(tool.version, CommandVersion(tool, c), tool.contract, c.responseFile, c.components))
  }

  ghost predicate Collision(tool: Tool, x: Bytes, y: Bytes) {
    x != y && tool.digest(x) == tool.digest(y)
  }

  /** Two actions with one key have the same hashed fields, or else their streams are a hash collision. */
  lemma EqualKeysMeanEqualCommands(tool: Tool, c: Command, d: Command)
    requires Encodable(c) && Encodable(d) && Short(tool.contract) && ActionKey(tool, c) == ActionKey(tool, d)
    ensures || c == d
            || Collision(tool, CommandStream(c), CommandStream(d))
            || Collision(tool,
                 ActionStream(tool.version, CommandVersion(tool, c), tool.contract, c.responseFile, c.components),
                 ActionStream(tool.version, CommandVersion(tool, d), tool.contract, d.responseFile, d.components))
  {
    hide CommandStream, ActionStream;
    CommandStreamInjective(c, d);
    ActionStreamInjective(
      tool.version, CommandVersion(tool, c), tool.contract, c.responseFile, c.components,
      tool.version, CommandVersion(tool, d), tool.contract, d.responseFile, d.components);
  }

  /** A new schema version or contract version changes every key, short of a collision. */
  lemma NewToolMeansNewKey(tool: Tool, other: Tool, c: Command)
    requires Encodable(c) && Short(tool.contract) && Short(other.contract) && tool.digest == other.digest
    requires tool.version != other.version || tool.contract != other.contract
    ensures ActionKey(tool, c) != ActionKey(other, c)
         || Collision(tool,
              ActionStream(tool.version, CommandVersion(tool, c), tool.contract, c.responseFile, c.components),
              ActionStream(other.version, CommandVersion(other, c), other.contract, c.responseFile, c.components))
  {
    hide CommandStream, ActionStream;
    ActionStreamInjective(
      tool.version, CommandVersion(tool, c), tool.contract, c.responseFile, c.components,
      other.version, CommandVersion(other, c), other.contract, c.responseFile, c.components);
  }
}
