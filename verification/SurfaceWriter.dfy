/** Writing the canonical surface text, line by line. */
module SurfaceWriter {
  import opened Decimal
  import opened Sequences
  import opened SurfaceText

  class TextWriter {
    var text: string

    constructor ()
      ensures text == ""
    {
      text := "";
    }

    method WriteLine(line: string)
      modifies this
      ensures text == old(text) + (line + "\n")
    {
      text := text + line;
      text := text + "\n";
    }

    /** The rows of one section, each behind the tag of the section. */
    method WriteTagged(tag: string, rows: seq<string>)
      modifies this
      ensures text == old(text) + Unlines(Tagged(tag, rows))
    {
      var i := 0;
      assert rows[0..] == rows;
      while i < |rows|
        invariant 0 <= i <= |rows|
        invariant text + Unlines(Tagged(tag, rows[i..])) == old(text) + Unlines(Tagged(tag, rows))
      {
        UnlinesTagged(tag, rows[i..]);
        assert rows[i..][1..] == rows[i + 1..];
        Regroup(text, tag + rows[i] + "\n", Unlines(Tagged(tag, rows[i + 1..])));
        WriteLine(tag + rows[i]);
        i := i + 1;
      }
      assert rows[i..] == [];
      assert text + "" == text;
    }

    method WriteEnum(e: Enum)
      modifies this
      ensures text == old(text) + Unlines(EnumLines(e))
    {
      hide Tagged, Unlines;
      WriteLine(e.name);
      WriteTagged("", MemberRows(e.members));
      WriteLine("");
      UnlinesEnum(e);
    }

    method WriteEnums(es: seq<Enum>)
      modifies this
      ensures text == old(text) + Unlines(EnumsLines(es))
    {
      hide EnumLines;
      var i := 0;
      assert es[0..] == es;
      while i < |es|
        invariant 0 <= i <= |es|
        invariant text + Unlines(EnumsLines(es[i..])) == old(text) + Unlines(EnumsLines(es))
      {
        assert es[i..][0] == es[i] && es[i..][1..] == es[i + 1..];
        UnlinesConcat(EnumLines(es[i]), EnumsLines(es[i + 1..]));
        Regroup(text, Unlines(EnumLines(es[i])), Unlines(EnumsLines(es[i + 1..])));
        WriteEnum(es[i]);
        i := i + 1;
      }
      assert es[i..] == [];
      assert text + "" == text;
    }
  }

  /** What stands in front of the exit codes. */
  method WriteFront(writer: TextWriter, s: Surface)
    modifies writer
    ensures writer.text == old(writer.text) + Front(s)
  {
    hide Tagged, EnumsLines, Unlines;
    writer.WriteLine(s.version);
    writer.WriteEnums(s.enums);
    writer.WriteTagged(MARKER, s.markers);
    writer.WriteTagged(SUFFIX, s.suffixes);
    writer.WriteLine(MANGLING + s.mangling);
    writer.WriteLine(FILE_ID + s.fileId);
  }

  ghost function Front(s: Surface): string {
    (s.version + "\n") + Unlines(EnumsLines(s.enums)) + Unlines(Tagged(MARKER, s.markers))
    + Unlines(Tagged(SUFFIX, s.suffixes)) + (MANGLING + s.mangling + "\n") + (FILE_ID + s.fileId + "\n")
  }

  // ---------------------------------------------------------------- the text of several lines

  lemma {:induction false} UnlinesConcat(a: seq<string>, b: seq<string>)
    ensures Unlines(a + b) == Unlines(a) + Unlines(b)
    decreases |a|
  {
    if a == [] {
      assert a + b == b;
    } else {
      assert (a + b)[0] == a[0] && (a + b)[1..] == a[1..] + b;
      UnlinesConcat(a[1..], b);
      Regroup(a[0] + "\n", Unlines(a[1..]), Unlines(b));
    }
  }

  lemma UnlinesTagged(tag: string, rows: seq<string>)
    requires rows != []
    ensures Unlines(Tagged(tag, rows)) == (tag + rows[0] + "\n") + Unlines(Tagged(tag, rows[1..]))
  {
    assert Tagged(tag, rows)[1..] == Tagged(tag, rows[1..]);
  }

  lemma {:induction false} TaggedWithNothing(rows: seq<string>)
    ensures Tagged("", rows) == rows
    decreases |rows|
  {
    if rows != [] {
      TaggedWithNothing(rows[1..]);
      assert "" + rows[0] == rows[0];
      assert rows == [rows[0]] + rows[1..];
    }
  }

  lemma OneLine(line: string)
    ensures Unlines([line]) == line + "\n"
  {
    assert [line][1..] == [];
    assert Unlines([line]) == line + "\n" + "";
  }

  lemma UnlinesEnum(e: Enum)
    ensures Unlines(EnumLines(e))
         == (e.name + "\n") + Unlines(Tagged("", MemberRows(e.members))) + ("" + "\n")
  {
    hide Unlines, Tagged, MemberRows;
    TaggedWithNothing(MemberRows(e.members));
    OneLine(e.name);
    OneLine("");
    UnlinesConcat(MemberRows(e.members), [""]);
    UnlinesConcat([e.name], MemberRows(e.members) + [""]);
    Regroup(e.name + "\n", Unlines(MemberRows(e.members)), "" + "\n");
  }

  // ---------------------------------------------------------------- exit codes in ascending order

  method SortByCode(exits: seq<(int, string)>) returns (sorted: seq<(int, string)>)
    requires DistinctCodes(exits)
    ensures IsSortedExits(sorted, exits)
  {
    sorted := [];
    var n := 0;
    while n < |exits|
      invariant 0 <= n <= |exits|
      invariant IsSortedExits(sorted, exits[..n])
    {
      sorted := Insert(sorted, exits[..n], exits[n]);
      assert exits[..n + 1] == exits[..n] + [exits[n]];
      n := n + 1;
    }
    assert exits[..n] == exits;
  }

  /** Insert one exit code behind the smaller ones. */
  method Insert(sorted: seq<(int, string)>, read: seq<(int, string)>, e: (int, string)) returns (r: seq<(int, string)>)
    requires IsSortedExits(sorted, read) && forall i :: 0 <= i < |read| ==> read[i].0 != e.0
    ensures IsSortedExits(r, read + [e])
  {
    var k := 0;
    while k < |sorted| && sorted[k].0 < e.0
      invariant 0 <= k <= |sorted|
      invariant forall i :: 0 <= i < k ==> sorted[i].0 < e.0
    {
      k := k + 1;
    }
    forall i | k <= i < |sorted| ensures e.0 < sorted[i].0 {
      SameMembers(sorted, read, i);
      SameMembers(sorted, read, k);
    }
    r := sorted[..k] + [e] + sorted[k..];
    InsertedMultiset(sorted, k, e);
  }

  lemma InsertedMultiset(sorted: seq<(int, string)>, k: nat, e: (int, string))
    requires k <= |sorted|
    ensures multiset(sorted[..k] + [e] + sorted[k..]) == multiset(sorted) + multiset{e}
  {
    assert sorted == sorted[..k] + sorted[k..];
  }

  // ---------------------------------------------------------------- the surface

  /** The text of the surface is that of its lines, with the exit codes in ascending order. */
  ghost predicate IsTextOf(text: string, s: Surface) {
    exists exits :: IsSortedExits(exits, s.exits) && text == Unlines(Lines(s, exits))
  }

  method WriteCanonicalSurface(s: Surface) returns (text: string)
    requires DistinctCodes(s.exits)
    ensures IsTextOf(text, s)
  {
    hide Front, Tagged, Unlines, MemberRows, ExitRows, TagRows, Lines, IsSortedExits;
    var writer := new TextWriter();
    WriteFront(writer, s);
    var sortedExits := SortByCode(s.exits);
    writer.WriteTagged(EXIT, ExitRows(sortedExits));
    writer.WriteTagged(ACTION, s.actions);
    writer.WriteTagged(TAG, TagRows(s.tags));
    writer.WriteTagged(SIZE, MemberRows(s.sizes));
    text := writer.text;
    UnlinesLines(s, sortedExits);
  }

  /** The texts of two surfaces are equal exactly if the surfaces are, up to the order of exit codes. */
  lemma TextsTellSurfacesApart(s: Surface, text: string, t: Surface, other: string)
    requires Plain(s) && Plain(t) && IsTextOf(text, s) && IsTextOf(other, t)
    ensures text == other <==> EqualUpToExitOrder(s, t)
  {
    hide Lines, Unlines, Plain, EqualUpToExitOrder, IsSortedExits;
    var es :| IsSortedExits(es, s.exits) && text == Unlines(Lines(s, es));
    var et :| IsSortedExits(et, t.exits) && other == Unlines(Lines(t, et));
    TextDeterminesSurface(s, es, t, et);
  }

  lemma UnlinesLines(s: Surface, exits: seq<(int, string)>)
    ensures Unlines(Lines(s, exits))
         == Front(s)
            + Unlines(Tagged(EXIT, ExitRows(exits))) + Unlines(Tagged(ACTION, s.actions))
            + Unlines(Tagged(TAG, TagRows(s.tags))) + Unlines(Tagged(SIZE, MemberRows(s.sizes)))
  {
    hide Tagged, EnumsLines, Unlines, MemberRows, ExitRows, TagRows;
    var l9 := Tagged(SIZE, MemberRows(s.sizes));
    var l8 := Tagged(TAG, TagRows(s.tags)) + l9;
    var l7 := Tagged(ACTION, s.actions) + l8;
    var l6 := Tagged(EXIT, ExitRows(exits)) + l7;
    var l5 := [FILE_ID + s.fileId] + l6;
    var l4 := [MANGLING + s.mangling] + l5;
    var l3 := Tagged(SUFFIX, s.suffixes) + l4;
    var l2 := Tagged(MARKER, s.markers) + l3;
    UnlinesConcat([s.version], EnumsLines(s.enums) + l2);
    UnlinesConcat(EnumsLines(s.enums), l2);
    UnlinesConcat(Tagged(MARKER, s.markers), l3);
    UnlinesConcat(Tagged(SUFFIX, s.suffixes), l4);
    UnlinesConcat([MANGLING + s.mangling], l5);
    UnlinesConcat([FILE_ID + s.fileId], l6);
    UnlinesConcat(Tagged(EXIT, ExitRows(exits)), l7);
    UnlinesConcat(Tagged(ACTION, s.actions), l8);
    UnlinesConcat(Tagged(TAG, TagRows(s.tags)), l9);
    OneLine(s.version);
    OneLine(MANGLING + s.mangling);
    OneLine(FILE_ID + s.fileId);
  }
}
