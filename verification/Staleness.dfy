/**
 What the build remembers between runs, when it takes an action to be out of date, and what it
 records after a success.

 A file is represented by the digest of its current content; a path outside the map does not exist.
 The partitions of the two archives are merged into one map each.
 */
module Staleness {
  import opened Wrappers
  import opened Bytes
  import Ordinal

  type Files = map<Path, IoHash>

  /** The part of an action that the staleness test looks at; `key` is its action key. */
  datatype Action = Action(produces: seq<Path>, prerequisites: seq<Path>, key: IoHash)

  /** Action keys by output, content hashes by source, and header lists by source. */
  datatype Memory = Memory(keys: map<Path, IoHash>, contents: map<Path, IoHash>, headers: map<Path, seq<Path>>)

  /** The zero digest stands for a missing entry. */
  function Stored(m: map<Path, IoHash>, p: Path): IoHash {
    if p in m then m[p] else ZERO_HASH
  }

  predicate WrongKey(p: Path, key: IoHash, mem: Memory) {
    Stored(mem.keys, p) == ZERO_HASH || Stored(mem.keys, p) != key
  }

  /** A prerequisite with a recorded hash it no longer has. */
  predicate PrerequisiteChanged(p: Path, fs: Files, mem: Memory) {
    Stored(mem.contents, p) != ZERO_HASH && (p !in fs || fs[p] != Stored(mem.contents, p))
  }

  /** A recorded header without a recorded hash, or with another one. */
  predicate HeaderChanged(h: Path, fs: Files, mem: Memory) {
    Stored(mem.contents, h) == ZERO_HASH || h !in fs || fs[h] != Stored(mem.contents, h)
  }

  predicate SomeHeaderChanged(p: Path, fs: Files, mem: Memory) {
    p in mem.headers && exists h :: h in mem.headers[p] && HeaderChanged(h, fs, mem)
  }

  predicate Outdated(a: Action, fs: Files, mem: Memory) {
    || (exists p :: p in a.produces && p !in fs)
    || (exists p :: p in a.produces && WrongKey(p, a.key, mem))
    || (exists p :: p in a.prerequisites && PrerequisiteChanged(p, fs, mem))
    || (exists p :: p in a.prerequisites && SomeHeaderChanged(p, fs, mem))
  }

  /** The rules spelled out: an output is missing or was not made by this command, a prerequisite no longer
      has its recorded content, or a recorded header has no recorded content or no longer that one. */
  lemma OutdatedRules(a: Action, fs: Files, mem: Memory)
    ensures Outdated(a, fs, mem) <==>
      || (exists p :: p in a.produces
                      && (p !in fs || p !in mem.keys || mem.keys[p] == ZERO_HASH || mem.keys[p] != a.key))
      || (exists p :: p in a.prerequisites && p in mem.contents && mem.contents[p] != ZERO_HASH
                      && (p !in fs || fs[p] != mem.contents[p]))
      || (exists p, h :: p in a.prerequisites && p in mem.headers && h in mem.headers[p]
                         && (h !in mem.contents || mem.contents[h] == ZERO_HASH || h !in fs
                             || fs[h] != mem.contents[h]))
  {
    if p, h :|
      p in a.prerequisites && p in mem.headers && h in mem.headers[p]
      && (h !in mem.contents || mem.contents[h] == ZERO_HASH || h !in fs || fs[h] != mem.contents[h]) {
      assert HeaderChanged(h, fs, mem) && SomeHeaderChanged(p, fs, mem);
    }
  }

  // ---------------------------------------------------------------- recording a success

  function KeyEntries(outputs: seq<Path>, key: IoHash): map<Path, IoHash> {
    map p | p in outputs :: key
  }

  /** The current hashes of the files among these paths. */
  function Hashes(paths: seq<Path>, fs: Files): map<Path, IoHash> {
    map p | p in paths && p in fs :: fs[p]
  }

  /** The paths no action produces. */
  function Raw(paths: seq<Path>, produced: set<Path>): (r: seq<Path>)
    ensures forall p :: p in r <==> p in paths && p !in produced
  {
    if paths == [] then []
    else
      var last := paths[|paths| - 1];
      Raw(paths[..|paths| - 1], produced) + (if last in produced then [] else [last])
  }

  ghost function HeaderEntries(sources: seq<Path>, discovered: seq<Path>): map<Path, seq<Path>> {
    map p | p in sources :: Ordinal.Sorted(set h | h in discovered)
  }

  /** Each of these headers once, in ordinal order. */
  ghost predicate ListsHeaders(list: seq<Path>, discovered: seq<Path>) {
    && (forall h :: h in list <==> h in discovered)
    && forall i, j :: 0 <= i < j < |list| ==> Precedes(list[i], list[j])
  }

  lemma HeaderEntriesLists(sources: seq<Path>, discovered: seq<Path>)
    ensures forall p :: p in HeaderEntries(sources, discovered) <==> p in sources
    ensures forall p :: p in sources ==> ListsHeaders(HeaderEntries(sources, discovered)[p], discovered)
  {
    hide Precedes, Below;
    Ordinal.IncreasingPrecedes(Ordinal.Sorted(set h | h in discovered));
  }

  /** The memory after `a` has succeeded, with the headers its dependency file lists if it has one. */
  ghost function RecordedMemory(
    mem: Memory, a: Action, produced: set<Path>, discovered: Option<seq<Path>>, fs: Files): Memory
  {
    var sources := Raw(a.prerequisites, produced);
    var contents := mem.contents + Hashes(sources, fs);
    Memory(mem.keys + KeyEntries(a.produces, a.key),
           if discovered.None? then contents else contents + Hashes(discovered.value, fs),
           if discovered.None? then mem.headers else mem.headers + HeaderEntries(sources, discovered.value))
  }

  // ---------------------------------------------------------------- the two archives at work

  class BuildMemory {
    var keys: map<Path, IoHash>
    var contents: map<Path, IoHash>
    var headers: map<Path, seq<Path>>

    constructor (mem: Memory)
      ensures Value() == mem
    {
      keys, contents, headers := mem.keys, mem.contents, mem.headers;
    }

    function Value(): Memory
      reads this
    {
      Memory(keys, contents, headers)
    }

    method IsActionOutdated(a: Action, fs: Files) returns (outdated: bool)
      ensures outdated == Outdated(a, fs, Value())
    {
      var i := 0;
      while i < |a.produces|
        invariant 0 <= i <= |a.produces|
        invariant forall k :: 0 <= k < i ==> a.produces[k] in fs
      {
        if a.produces[i] !in fs {
          return true;
        }
        i := i + 1;
      }
      i := 0;
      while i < |a.produces|
        invariant 0 <= i <= |a.produces|
        invariant forall k :: 0 <= k < i ==> !WrongKey(a.produces[k], a.key, Value())
      {
        if WrongKey(a.produces[i], a.key, Value()) {
          return true;
        }
        i := i + 1;
      }
      i := 0;
      while i < |a.prerequisites|
        invariant 0 <= i <= |a.prerequisites|
        invariant forall k :: 0 <= k < i ==> !PrerequisiteChanged(a.prerequisites[k], fs, Value())
      {
        if PrerequisiteChanged(a.prerequisites[i], fs, Value()) {
          return true;
        }
        i := i + 1;
      }
      i := 0;
      while i < |a.prerequisites|
        invariant 0 <= i <= |a.prerequisites|
        invariant forall k :: 0 <= k < i ==> !SomeHeaderChanged(a.prerequisites[k], fs, Value())
      {
        var changed := AnyHeaderChanged(a.prerequisites[i], fs);
        if changed {
          return true;
        }
        i := i + 1;
      }
      outdated := false;
    }

    method AnyHeaderChanged(source: Path, fs: Files) returns (changed: bool)
      ensures changed == SomeHeaderChanged(source, fs, Value())
    {
      if source !in headers {
        return false;
      }
      var recorded, j := headers[source], 0;
      while j < |recorded|
        invariant 0 <= j <= |recorded|
        invariant forall k :: 0 <= k < j ==> !HeaderChanged(recorded[k], fs, Value())
      {
        if HeaderChanged(recorded[j], fs, Value()) {
          return true;
        }
        j := j + 1;
      }
      changed := false;
    }

    /** The recording part of a successful run. */
    method RecordSuccess(a: Action, produced: set<Path>, discovered: Option<seq<Path>>, fs: Files)
      modifies this
      ensures Value() == RecordedMemory(old(Value()), a, produced, discovered, fs)
      ensures forall p :: discovered.Some? && p in a.prerequisites && p !in produced ==>
        p in headers && ListsHeaders(headers[p], discovered.value)
    {
      hide Precedes, Below;
      HeaderEntriesLists(Raw(a.prerequisites, produced), if discovered.Some? then discovered.value else []);
      RecordKeys(a.produces, a.key);
      var sources := SelectRaw(a.prerequisites, produced);
      RecordHashes(sources, fs);
      if discovered.Some? {
        RecordDependencies(sources, discovered.value);
        RecordHashes(discovered.value, fs);
      }
    }

    method RecordKeys(outputs: seq<Path>, key: IoHash)
      modifies this`keys
      ensures keys == old(keys) + KeyEntries(outputs, key)
    {
      var i := 0;
      while i < |outputs|
        invariant 0 <= i <= |outputs|
        invariant keys == old(keys) + KeyEntries(outputs[..i], key)
      {
        keys := keys[outputs[i] := key];
        assert outputs[..i + 1] == outputs[..i] + [outputs[i]];
        i := i + 1;
      }
      assert outputs[..i] == outputs;
    }

    method RecordHashes(paths: seq<Path>, fs: Files)
      modifies this`contents
      ensures contents == old(contents) + Hashes(paths, fs)
    {
      var i := 0;
      while i < |paths|
        invariant 0 <= i <= |paths|
        invariant contents == old(contents) + Hashes(paths[..i], fs)
      {
        if paths[i] in fs {
          contents := contents[paths[i] := fs[paths[i]]];
        }
        assert paths[..i + 1] == paths[..i] + [paths[i]];
        i := i + 1;
      }
      assert paths[..i] == paths;
    }

    /** Distinct headers in ordinal order, for every source. */
    method RecordDependencies(sources: seq<Path>, discovered: seq<Path>)
      modifies this`headers
      ensures headers == old(headers) + HeaderEntries(sources, discovered)
      ensures forall p :: p in headers <==> p in old(headers) || p in sources
      ensures forall p :: p in headers ==>
        if p in sources then ListsHeaders(headers[p], discovered) else headers[p] == old(headers)[p]
    {
      hide Precedes, Below;
      var uniqueSorted := Ordinal.Sort(discovered);
      Ordinal.SortedIs(uniqueSorted, set h | h in discovered);
      var i := 0;
      while i < |sources|
        invariant 0 <= i <= |sources|
        invariant headers == old(headers) + HeaderEntries(sources[..i], discovered)
      {
        headers := headers[sources[i] := uniqueSorted];
        assert sources[..i + 1] == sources[..i] + [sources[i]];
        i := i + 1;
      }
      assert sources[..i] == sources;
    }
  }

  method SelectRaw(paths: seq<Path>, produced: set<Path>) returns (raw: seq<Path>)
    ensures raw == Raw(paths, produced)
  {
    raw := [];
    var i := 0;
    while i < |paths|
      invariant 0 <= i <= |paths|
      invariant raw == Raw(paths[..i], produced)
    {
      assert paths[..i + 1][..i] == paths[..i];
      if paths[i] !in produced {
        raw := raw + [paths[i]];
      } else {
        assert raw + [] == raw;
      }
      i := i + 1;
    }
    assert paths[..i] == paths;
  }
}
