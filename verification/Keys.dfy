/** Feeding the hasher, caching the command version, and checking that path lists are sorted. */
module Keys {
  import opened Wrappers
  import opened Bytes
  import opened LittleEndian
  import opened KeyStreams
  import Ordinal

  /** The hash state, as the bytes fed so far. */
  class Hasher {
    var fed: Bytes

    constructor ()
      ensures fed == []
    {
      fed := [];
    }

    method Update(b: Bytes)
      modifies this
      ensures fed == old(fed) + b
    {
      fed := fed + b;
    }

    method UpdateUtf8(s: Bytes)
      requires Short(s)
      modifies this
      ensures fed == old(fed) + Blob(s)
    {
      hide Int32Bytes;
      Update(Int32Bytes(|s|));
      if |s| == 0 {
        assert s == [] && Blob(s) == Int32Bytes(|s|);
        return;
      }
      Update(s);
    }

    method UpdateList(bs: seq<Bytes>)
      requires ShortList(bs)
      modifies this
      ensures fed == old(fed) + List(bs)
    {
      hide Int32Bytes, Blob;
      Update(Int32Bytes(|bs|));
      ghost var start := fed;
      var i := 0;
      assert bs[0..] == bs;
      while i < |bs|
        invariant 0 <= i <= |bs|
        invariant fed + Blobs(bs[i..]) == start + Blobs(bs)
      {
        assert bs[i..][0] == bs[i] && bs[i..][1..] == bs[i + 1..];
        UpdateUtf8(bs[i]);
        i := i + 1;
      }
      assert Blobs([]) == [];
      assert fed == start + Blobs(bs);
    }

    method UpdateNullable(b: Option<Bytes>)
      requires ShortOption(b)
      modifies this
      ensures fed == old(fed) + Nullable(b)
    {
      if b.None? {
        Update(Int32Bytes(-1));
      } else {
        UpdateUtf8(b.value);
      }
    }
  }

  class ExternalAction {
    const tool: Tool
    const command: Command
    var commandVersionCache: Option<IoHash>

    /** The cache holds the right value or nothing. */
    ghost predicate Valid()
      reads this
    {
      && Encodable(command) && Short(tool.contract)
      && (commandVersionCache.Some? ==> commandVersionCache.value == CommandVersion(tool, command))
    }

    constructor (tool: Tool, command: Command)
      requires Encodable(command) && Short(tool.contract)
      ensures Valid() && this.tool == tool && this.command == command
    {
      this.tool, this.command, commandVersionCache := tool, command, None;
    }

    method GetCommandVersion() returns (h: IoHash)
      requires Valid()
      modifies this
      ensures Valid() && h == CommandVersion(tool, command)
    {
      if commandVersionCache.Some? {
        return commandVersionCache.value;
      }
      h := ComputeCommandVersion();
      commandVersionCache := Some(h);
    }

    method ComputeCommandVersion() returns (h: IoHash)
      requires Valid()
      ensures h == CommandVersion(tool, command)
    {
      hide Int32Bytes, Blob, List, Nullable;
      var c := command;
      var hasher := new Hasher();
      hasher.Update(Int32Bytes(c.actionType));
      hasher.UpdateUtf8(c.path);
      hasher.UpdateList(c.arguments);
      hasher.UpdateNullable(c.responseFile);
      hasher.UpdateUtf8(c.directory);
      hasher.UpdateList(c.components);
      hasher.Update(Int32Bytes(c.configuration));
      hasher.Update(Int32Bytes(c.platform));
      hasher.Update(Flag(c.simPath));
      assert hasher.fed == CommandStream(c);
      h := tool.digest(hasher.fed);
    }

    method ComputeActionKey() returns (key: IoHash)
      requires Valid()
      modifies this
      ensures Valid() && key == ActionKey(tool, command)
    {
      hide Int32Bytes, Blob, List, Nullable, CommandStream;
      var hasher := new Hasher();
      hasher.Update(tool.version);
      var commandVersion := GetCommandVersion();
      hasher.Update(commandVersion);
      hasher.UpdateUtf8(tool.contract);
      hasher.UpdateNullable(command.responseFile);
      hasher.UpdateList(command.components);
      assert hasher.fed
          == ActionStream(tool.version, commandVersion, tool.contract, command.responseFile, command.components);
      key := tool.digest(hasher.fed);
    }
  }

  // ---------------------------------------------------------------- sorted path lists

  datatype ListError = OutOfOrder(index: nat) | Duplicate(index: nat)

  /** Accepts exactly the strictly increasing lists, and otherwise names the first offending entry. */
  method ValidateSorted(items: seq<Path>) returns (error: Option<ListError>)
    ensures error.None? <==> forall j, k :: 0 <= j < k < |items| ==> Precedes(items[j], items[k])
    ensures error.Some? ==>
      var i := error.value.index;
      && 0 < i < |items| && (forall j, k :: 0 <= j < k < i ==> Precedes(items[j], items[k]))
      && (error.value.Duplicate? <==> items[i - 1] == items[i])
      && (error.value.OutOfOrder? <==> Precedes(items[i], items[i - 1]))
  {
    hide Precedes, Below;
    Ordinal.IncreasingPrecedes(items);
    error := None;
    var i := 1;
    while i < |items|
      invariant 1 <= i && (i <= |items| || |items| == 0)
      invariant i <= |items| ==> Ordinal.Increasing(items[..i])
    {
      FrontPrecedes(items, i);
      BelowExactly(items[i], items[i - 1]);
      BelowTotal(items[i - 1], items[i]);
      BelowIrreflexive(items[i]);
      if Below(items[i], items[i - 1]) {
        BelowAsymmetric(items[i], items[i - 1]);
        return Some(OutOfOrder(i));
      }
      if items[i - 1] == items[i] {
        return Some(Duplicate(i));
      }
      IncreasingStep(items, i);
      i := i + 1;
    }
    if items != [] {
      assert items[..i] == items;
    }
  }

  lemma FrontPrecedes(items: seq<Path>, i: nat)
    requires i <= |items|
    ensures Ordinal.Increasing(items[..i]) <==> forall j, k :: 0 <= j < k < i ==> Precedes(items[j], items[k])
  {
    hide Precedes, Below;
    var front := items[..i];
    Ordinal.IncreasingPrecedes(front);
    assert forall j :: 0 <= j < i ==> front[j] == items[j];
  }

  lemma IncreasingStep(items: seq<Path>, i: nat)
    requires 0 < i < |items| && Ordinal.Increasing(items[..i]) && Below(items[i - 1], items[i])
    ensures Ordinal.Increasing(items[..i + 1])
  {
    forall j, k | 0 <= j < k < i + 1 ensures Below(items[j], items[k]) {
      if k < i {
        assert Below(items[..i][j], items[..i][k]);
      } else if j < i - 1 {
        assert Below(items[..i][j], items[..i][i - 1]);
        BelowTransitive(items[j], items[i - 1], items[i]);
      }
    }
  }
}
