/** The canonical text of the contract surface, and how much of the surface it determines. */
module SurfaceText {
  import opened Decimal

  datatype Enum = Enum(name: string, members: seq<(string, int)>)

  datatype Surface = Surface(
    version: string, enums: seq<Enum>, markers: seq<string>, suffixes: seq<string>, mangling: string, fileId: string,
    exits: seq<(int, string)>, actions: seq<string>, tags: seq<(string, string)>, sizes: seq<(string, int)>)

  // ---------------------------------------------------------------- which surfaces

  predicate Free(s: string, c: char) {
    forall i :: 0 <= i < |s| ==> s[i] != c
  }

  predicate AllFree(ss: seq<string>, c: char) {
    forall i :: 0 <= i < |ss| ==> Free(ss[i], c)
  }

  predicate PlainEnum(e: Enum) {
    && Free(e.name, '\n') && Free(e.name, ':')
    && forall i :: 0 <= i < |e.members| ==> Free(e.members[i].0, '\n') && Free(e.members[i].0, '=')
  }

  predicate DistinctCodes(exits: seq<(int, string)>) {
    forall i, j :: 0 <= i < j < |exits| ==> exits[i].0 != exits[j].0
  }

  /** No text runs over a line, no name runs over its separator, and no exit code occurs twice. */
  predicate Plain(s: Surface) {
    && Free(s.version, '\n') && Free(s.mangling, '\n') && Free(s.fileId, '\n')
    && (forall i :: 0 <= i < |s.enums| ==> PlainEnum(s.enums[i]))
    && AllFree(s.markers, '\n') && AllFree(s.suffixes, '\n') && AllFree(s.actions, '\n')
    && (forall i :: 0 <= i < |s.exits| ==> Free(s.exits[i].1, '\n')) && DistinctCodes(s.exits)
    && (forall i :: 0 <= i < |s.tags| ==>
          Free(s.tags[i].0, '\n') && Free(s.tags[i].0, '=') && Free(s.tags[i].1, '\n'))
    && (forall i :: 0 <= i < |s.sizes| ==> Free(s.sizes[i].0, '\n') && Free(s.sizes[i].0, '='))
  }

  // ---------------------------------------------------------------- exit codes in order

  predicate Ascending(exits: seq<(int, string)>) {
    forall i, j :: 0 <= i < j < |exits| ==> exits[i].0 < exits[j].0
  }

  ghost predicate IsSortedExits(sorted: seq<(int, string)>, exits: seq<(int, string)>) {
    Ascending(sorted) && multiset(sorted) == multiset(exits)
  }

  lemma {:induction false} AscendingUnique(a: seq<(int, string)>, b: seq<(int, string)>)
    requires Ascending(a) && Ascending(b) && multiset(a) == multiset(b)
    ensures a == b
    decreases |a|
  {
    assert |a| == |multiset(a)| == |b|;
    if a != [] {
      FirstIsLeast(a, b);
      FirstIsLeast(b, a);
      TailMultiset(a);
      TailMultiset(b);
      AscendingUnique(a[1..], b[1..]);
      assert a == [a[0]] + a[1..] && b == [b[0]] + b[1..];
    }
  }

  lemma FirstIsLeast(a: seq<(int, string)>, b: seq<(int, string)>)
    requires Ascending(a) && Ascending(b) && multiset(a) == multiset(b) && a != [] && b != []
    ensures a[0].0 <= b[0].0 && (a[0].0 == b[0].0 ==> a[0] == b[0])
  {
    assert b[0] in multiset(a);
    var j :| 0 <= j < |a| && a[j] == b[0];
  }

  lemma TailMultiset(a: seq<(int, string)>)
    requires a != []
    ensures multiset(a[1..]) == multiset(a) - multiset{a[0]}
  {
    assert a == [a[0]] + a[1..];
  }

  // ---------------------------------------------------------------- the lines

  function Tagged(tag: string, rows: seq<string>): (r: seq<string>)
    ensures |r| == |rows|
  {
    if rows == [] then [] else [tag + rows[0]] + Tagged(tag, rows[1..])
  }

  /** Two fields of one line. */
  function Pair(left: string, right: string): string {
    left + "=" + right
  }

  function MemberRows(members: seq<(string, int)>): (r: seq<string>)
    ensures |r| == |members| && forall i :: 0 <= i < |r| ==> r[i] == Pair(members[i].0, IntText(members[i].1))
  {
    if members == [] then [] else [Pair(members[0].0, IntText(members[0].1))] + MemberRows(members[1..])
  }

  function ExitRows(exits: seq<(int, string)>): (r: seq<string>)
    ensures |r| == |exits| && forall i :: 0 <= i < |r| ==> r[i] == Pair(IntText(exits[i].0), exits[i].1)
  {
    if exits == [] then [] else [Pair(IntText(exits[0].0), exits[0].1)] + ExitRows(exits[1..])
  }

  function TagRows(tags: seq<(string, string)>): (r: seq<string>)
    ensures |r| == |tags| && forall i :: 0 <= i < |r| ==> r[i] == Pair(tags[i].0, tags[i].1)
  {
    if tags == [] then [] else [Pair(tags[0].0, tags[0].1)] + TagRows(tags[1..])
  }

  /** The name, the members, and the blank line that ends the entry. */
  function EnumLines(e: Enum): seq<string> {
    [e.name] + (MemberRows(e.members) + [""])
  }

  function EnumsLines(es: seq<Enum>): seq<string> {
    if es == [] then [] else EnumLines(es[0]) + EnumsLines(es[1..])
  }

  const MARKER := "marker:"
  const SUFFIX := "bodysuffix:"
  const MANGLING := "mangling:"
  const FILE_ID := "file_id:"
  const EXIT := "exit:"
  const ACTION := "action:"
  const TAG := "abitag:"
  const SIZE := "abisize:"

  /** The lines of a surface whose exit codes are, in ascending order, `exits`. */
  function Lines(s: Surface, exits: seq<(int, string)>): seq<string> {
    [s.version] + (EnumsLines(s.enums) + (Tagged(MARKER, s.markers) + (Tagged(SUFFIX, s.suffixes)
      + ([MANGLING + s.mangling] + ([FILE_ID + s.fileId] + (Tagged(EXIT, ExitRows(exits))
      + (Tagged(ACTION, s.actions) + (Tagged(TAG, TagRows(s.tags)) + Tagged(SIZE, MemberRows(s.sizes))))))))))
  }

  function Unlines(lines: seq<string>): string {
    if lines == [] then "" else lines[0] + "\n" + Unlines(lines[1..])
  }

  // ---------------------------------------------------------------- the layout

  /** The sections in their order, a blank line behind each enum, and a line feed behind every line. */
  lemma SurfaceLayout(s: Surface, e: Enum, x: (string, int), m: string, b: string, exits: seq<(int, string)>,
                      a: string, t: (string, string), z: (string, int))
    requires e.members == [x] && s.enums == [e] && s.markers == [m] && s.suffixes == [b] && |exits| == 2
    requires s.actions == [a] && s.tags == [t] && s.sizes == [z]
    ensures Lines(s, exits)
         == [s.version, e.name, x.0 + "=" + IntText(x.1), "", "marker:" + m, "bodysuffix:" + b,
             "mangling:" + s.mangling, "file_id:" + s.fileId,
             "exit:" + (IntText(exits[0].0) + "=" + exits[0].1), "exit:" + (IntText(exits[1].0) + "=" + exits[1].1),
             "action:" + a, "abitag:" + (t.0 + "=" + t.1), "abisize:" + (z.0 + "=" + IntText(z.1))]
    ensures Unlines([m, b]) == m + "\n" + (b + "\n" + "")
  {
    OneRow(MARKER, m);
    OneRow(SUFFIX, b);
    OneRow(ACTION, a);
    OneRow(TAG, TagRows([t])[0]);
    OneRow(SIZE, MemberRows([z])[0]);
    TwoRows(EXIT, ExitRows(exits));
    OneEnum(e, x);
    TwoLines(m, b);
    assert TagRows([t]) == [TagRows([t])[0]] && MemberRows([z]) == [MemberRows([z])[0]];
    hide Tagged, EnumsLines, EnumLines, Unlines, IntText;
  }

  lemma OneRow(tag: string, row: string)
    ensures Tagged(tag, [row]) == [tag + row]
  {
    assert [row][1..] == [];
  }

  lemma TwoRows(tag: string, rows: seq<string>)
    requires |rows| == 2
    ensures Tagged(tag, rows) == [tag + rows[0], tag + rows[1]]
  {
    assert rows[1..] == [rows[1]];
    OneRow(tag, rows[1]);
  }

  lemma OneEnum(e: Enum, x: (string, int))
    requires e.members == [x]
    ensures EnumsLines([e]) == [e.name, Pair(x.0, IntText(x.1)), ""]
  {
    hide Pair, IntText;
    assert MemberRows([x]) == [Pair(x.0, IntText(x.1))];
    assert [e][1..] == [] && EnumsLines([]) == [];
  }

  lemma TwoLines(a: string, b: string)
    ensures Unlines([a, b]) == a + "\n" + (b + "\n" + "")
  {
    assert [a, b][1..] == [b] && [b][1..] == [];
    assert Unlines([b]) == b + "\n" + Unlines([]);
    assert Unlines([a, b]) == a + "\n" + Unlines([b]);
  }

  // ---------------------------------------------------------------- decoding

  lemma FirstAt(a: string, r: string, c: char)
    requires Free(a, c)
    ensures var t := a + [c] + r; t[|a|] == c && forall i :: 0 <= i < |a| ==> t[i] != c
  {
  }

  lemma FreeSplit(a: string, b: string, r: string, s: string, c: char)
    requires Free(a, c) && Free(b, c) && a + [c] + r == b + [c] + s
    ensures a == b && r == s
  {
    var t := a + [c] + r;
    var u := b + [c] + s;
    FirstAt(a, r, c);
    FirstAt(b, s, c);
    assert t[..|a|] == a && u[..|b|] == b;
    assert t[|a| + 1..] == r && u[|b| + 1..] == s;
  }

  lemma {:induction false} UnlinesInjective(a: seq<string>, b: seq<string>)
    requires AllFree(a, '\n') && AllFree(b, '\n') && Unlines(a) == Unlines(b)
    ensures a == b
    decreases |a|
  {
    if a != [] && b != [] {
      FreeSplit(a[0], b[0], Unlines(a[1..]), Unlines(b[1..]), '\n');
      UnlinesInjective(a[1..], b[1..]);
      assert a == [a[0]] + a[1..] && b == [b[0]] + b[1..];
    }
  }

  lemma PairInjective(a: string, x: string, b: string, y: string)
    requires Free(a, '=') && Free(b, '=') && Pair(a, x) == Pair(b, y)
    ensures a == b && x == y
  {
    FreeSplit(a, b, x, y, '=');
  }

  lemma {:induction false} MemberRowsInjective(a: seq<(string, int)>, b: seq<(string, int)>)
    requires forall i :: 0 <= i < |a| ==> Free(a[i].0, '=')
    requires forall i :: 0 <= i < |b| ==> Free(b[i].0, '=')
    requires MemberRows(a) == MemberRows(b)
    ensures a == b
  {
    hide Free, IntText, Pair;
    assert |a| == |MemberRows(a)| == |b|;
    forall i | 0 <= i < |a| ensures a[i] == b[i] {
      assert MemberRows(a)[i] == MemberRows(b)[i];
      PairInjective(a[i].0, IntText(a[i].1), b[i].0, IntText(b[i].1));
      IntTextInjective(a[i].1, b[i].1);
    }
  }

  lemma IntTextPlain(z: int)
    ensures Free(IntText(z), '=') && Free(IntText(z), '\n')
  {
  }

  lemma {:induction false} ExitRowsInjective(a: seq<(int, string)>, b: seq<(int, string)>)
    requires ExitRows(a) == ExitRows(b)
    ensures a == b
  {
    hide Free, IntText, Pair;
    assert |a| == |ExitRows(a)| == |b|;
    forall i | 0 <= i < |a| ensures a[i] == b[i] {
      assert ExitRows(a)[i] == ExitRows(b)[i];
      IntTextPlain(a[i].0);
      IntTextPlain(b[i].0);
      PairInjective(IntText(a[i].0), a[i].1, IntText(b[i].0), b[i].1);
      IntTextInjective(a[i].0, b[i].0);
    }
  }

  lemma {:induction false} TagRowsInjective(a: seq<(string, string)>, b: seq<(string, string)>)
    requires forall i :: 0 <= i < |a| ==> Free(a[i].0, '=')
    requires forall i :: 0 <= i < |b| ==> Free(b[i].0, '=')
    requires TagRows(a) == TagRows(b)
    ensures a == b
  {
    hide Free, Pair;
    assert |a| == |TagRows(a)| == |b|;
    forall i | 0 <= i < |a| ensures a[i] == b[i] {
      assert TagRows(a)[i] == TagRows(b)[i];
      PairInjective(a[i].0, a[i].1, b[i].0, b[i].1);
    }
  }

  // ---------------------------------------------------------------- telling the sections apart

  predicate HasTag(line: string, tag: string) {
    |tag| <= |line| && line[..|tag|] == tag
  }

  /** The next line, if any, belongs to another section. */
  predicate Foreign(tag: string, lines: seq<string>) {
    lines == [] || !HasTag(lines[0], tag)
  }

  predicate Differ(tag: string, other: string) {
    exists i :: 0 <= i < |tag| && i < |other| && tag[i] != other[i]
  }

  lemma ForeignLine(tag: string, other: string, row: string)
    requires Differ(tag, other)
    ensures !HasTag(other + row, tag)
  {
    var i :| 0 <= i < |tag| && i < |other| && tag[i] != other[i];
    assert (other + row)[i] == other[i];
    assert |tag| <= |other + row| ==> (other + row)[..|tag|][i] == (other + row)[i];
  }

  lemma ForeignSection(tag: string, other: string, rows: seq<string>, rest: seq<string>)
    requires Differ(tag, other) && Foreign(tag, rest)
    ensures Foreign(tag, Tagged(other, rows) + rest)
  {
    if rows == [] {
      assert Tagged(other, rows) + rest == rest;
    } else {
      ForeignLine(tag, other, rows[0]);
      assert (Tagged(other, rows) + rest)[0] == other + rows[0];
    }
  }

  lemma HasOwnTag(tag: string, row: string)
    ensures HasTag(tag + row, tag) && (tag + row)[|tag|..] == row
  {
  }

  lemma {:induction false} TaggedSplit(tag: string, a: seq<string>, b: seq<string>, r: seq<string>, s: seq<string>)
    requires Foreign(tag, r) && Foreign(tag, s) && Tagged(tag, a) + r == Tagged(tag, b) + s
    ensures a == b && r == s
    decreases |a|
  {
    hide HasTag;
    var x, y := Tagged(tag, a) + r, Tagged(tag, b) + s;
    if a != [] {
      HasOwnTag(tag, a[0]);
      assert x[0] == tag + a[0];
    } else {
      assert x == r;
    }
    if b != [] {
      HasOwnTag(tag, b[0]);
      assert y[0] == tag + b[0];
    } else {
      assert y == s;
    }
    if a != [] && b != [] {
      assert x[1..] == Tagged(tag, a[1..]) + r && y[1..] == Tagged(tag, b[1..]) + s;
      TaggedSplit(tag, a[1..], b[1..], r, s);
      assert a == [a[0]] + a[1..] && b == [b[0]] + b[1..];
    }
  }

  predicate HasColon(line: string) {
    exists i :: 0 <= i < |line| && line[i] == ':'
  }

  /** Where the enums end: a line with a colon. */
  predicate AfterEnums(lines: seq<string>) {
    lines != [] && HasColon(lines[0])
  }

  lemma {:induction false} RowsSplit(a: seq<string>, b: seq<string>, r: seq<string>, s: seq<string>)
    requires (forall i :: 0 <= i < |a| ==> a[i] != "") && (forall i :: 0 <= i < |b| ==> b[i] != "")
    requires a + ([""] + r) == b + ([""] + s)
    ensures a == b && r == s
    decreases |a|
  {
    var x, y := a + ([""] + r), b + ([""] + s);
    if a == [] || b == [] {
      assert x[|a|] == "" && y[|b|] == "";
      assert a == [] && b == [];
      assert x[1..] == r && y[1..] == s;
    } else {
      assert x[0] == a[0] && y[0] == b[0];
      assert x[1..] == a[1..] + ([""] + r) && y[1..] == b[1..] + ([""] + s);
      RowsSplit(a[1..], b[1..], r, s);
      assert a == [a[0]] + a[1..] && b == [b[0]] + b[1..];
    }
  }

  lemma EnumRegroup(e: Enum, more: seq<string>)
    ensures EnumLines(e) + more == [e.name] + (MemberRows(e.members) + ([""] + more))
  {
  }

  lemma EnumSplit(a: Enum, b: Enum, r: seq<string>, s: seq<string>)
    requires PlainEnum(a) && PlainEnum(b) && EnumLines(a) + r == EnumLines(b) + s
    ensures a == b && r == s
  {
    hide MemberRows;
    EnumRegroup(a, r);
    EnumRegroup(b, s);
    var x, y := MemberRows(a.members) + ([""] + r), MemberRows(b.members) + ([""] + s);
    assert ([a.name] + x)[0] == a.name && ([b.name] + y)[0] == b.name;
    assert ([a.name] + x)[1..] == x && ([b.name] + y)[1..] == y;
    RowsSplit(MemberRows(a.members), MemberRows(b.members), r, s);
    MemberRowsInjective(a.members, b.members);
  }

  lemma {:induction false} EnumsSplit(a: seq<Enum>, b: seq<Enum>, r: seq<string>, s: seq<string>)
    requires (forall i :: 0 <= i < |a| ==> PlainEnum(a[i])) && (forall i :: 0 <= i < |b| ==> PlainEnum(b[i]))
    requires AfterEnums(r) && AfterEnums(s) && EnumsLines(a) + r == EnumsLines(b) + s
    ensures a == b && r == s
    decreases |a|
  {
    hide PlainEnum, EnumLines, HasColon;
    EnumsHead(a, r);
    EnumsHead(b, s);
    if a == [] || b == [] {
      assert EnumsLines([]) + r == r && EnumsLines([]) + s == s;
    } else {
      assert EnumsLines(a) + r == EnumLines(a[0]) + (EnumsLines(a[1..]) + r);
      assert EnumsLines(b) + s == EnumLines(b[0]) + (EnumsLines(b[1..]) + s);
      EnumSplit(a[0], b[0], EnumsLines(a[1..]) + r, EnumsLines(b[1..]) + s);
      EnumsSplit(a[1..], b[1..], r, s);
      assert a == [a[0]] + a[1..] && b == [b[0]] + b[1..];
    }
  }

  /** The first line tells whether there is an enum. */
  lemma EnumsHead(es: seq<Enum>, r: seq<string>)
    requires (forall i :: 0 <= i < |es| ==> PlainEnum(es[i])) && AfterEnums(r)
    ensures EnumsLines(es) + r != [] && (HasColon((EnumsLines(es) + r)[0]) <==> es == [])
  {
    if es == [] {
      assert EnumsLines(es) + r == r;
    } else {
      assert PlainEnum(es[0]);
      assert (EnumsLines(es) + r)[0] == es[0].name;
    }
  }

  lemma TagsDiffer()
    ensures Differ(MARKER, SUFFIX) && Differ(MARKER, MANGLING) && Differ(SUFFIX, MANGLING)
    ensures Differ(EXIT, ACTION) && Differ(EXIT, TAG) && Differ(EXIT, SIZE)
    ensures Differ(ACTION, TAG) && Differ(ACTION, SIZE) && Differ(TAG, SIZE)
  {
    assert MARKER[0] == MANGLING[0] == 'm' && SUFFIX[0] == 'b';
    assert EXIT[0] == 'e' && ACTION[0] == TAG[0] == SIZE[0] == 'a';
    assert MARKER[2] == 'r' && MANGLING[2] == 'n';
    assert ACTION[1] == 'c' && TAG[1] == 'b' && SIZE[1] == 'b';
    assert TAG[3] == 't' && SIZE[3] == 's';
  }

  // ---------------------------------------------------------------- no line runs over

  lemma FreeConcat(a: string, b: string, c: char)
    requires Free(a, c) && Free(b, c)
    ensures Free(a + b, c)
  {
  }

  lemma AllFreeConcat(a: seq<string>, b: seq<string>, c: char)
    requires AllFree(a, c) && AllFree(b, c)
    ensures AllFree(a + b, c)
  {
  }

  lemma {:induction false} TaggedFree(tag: string, rows: seq<string>)
    requires Free(tag, '\n') && AllFree(rows, '\n')
    ensures AllFree(Tagged(tag, rows), '\n')
    decreases |rows|
  {
    hide Free;
    if rows != [] {
      assert AllFree(rows[1..], '\n');
      TaggedFree(tag, rows[1..]);
      FreeConcat(tag, rows[0], '\n');
      AllFreeConcat([tag + rows[0]], Tagged(tag, rows[1..]), '\n');
    }
  }

  lemma PairFree(left: string, right: string)
    requires Free(left, '\n') && Free(right, '\n')
    ensures Free(Pair(left, right), '\n')
  {
  }

  lemma MemberRowsFree(members: seq<(string, int)>)
    requires forall i :: 0 <= i < |members| ==> Free(members[i].0, '\n')
    ensures AllFree(MemberRows(members), '\n')
  {
    hide Free, IntText, Pair;
    var rows := MemberRows(members);
    forall i | 0 <= i < |rows| ensures Free(rows[i], '\n') {
      IntTextPlain(members[i].1);
      PairFree(members[i].0, IntText(members[i].1));
    }
  }

  lemma ExitRowsFree(exits: seq<(int, string)>)
    requires forall i :: 0 <= i < |exits| ==> Free(exits[i].1, '\n')
    ensures AllFree(ExitRows(exits), '\n')
  {
    hide Free, IntText, Pair;
    var rows := ExitRows(exits);
    forall i | 0 <= i < |rows| ensures Free(rows[i], '\n') {
      IntTextPlain(exits[i].0);
      PairFree(IntText(exits[i].0), exits[i].1);
    }
  }

  lemma TagRowsFree(tags: seq<(string, string)>)
    requires forall i :: 0 <= i < |tags| ==> Free(tags[i].0, '\n') && Free(tags[i].1, '\n')
    ensures AllFree(TagRows(tags), '\n')
  {
    hide Free, Pair;
    var rows := TagRows(tags);
    forall i | 0 <= i < |rows| ensures Free(rows[i], '\n') {
      PairFree(tags[i].0, tags[i].1);
    }
  }

  lemma {:induction false} EnumsFree(es: seq<Enum>)
    requires forall i :: 0 <= i < |es| ==> PlainEnum(es[i])
    ensures AllFree(EnumsLines(es), '\n')
    decreases |es|
  {
    if es != [] {
      hide Free;
      var e := es[0];
      assert PlainEnum(e);
      MemberRowsFree(e.members);
      EmptyIsFree();
      AllFreeConcat(MemberRows(e.members), [""], '\n');
      AllFreeConcat([e.name], MemberRows(e.members) + [""], '\n');
      EnumsFree(es[1..]);
      AllFreeConcat(EnumLines(e), EnumsLines(es[1..]), '\n');
    }
  }

  lemma EmptyIsFree()
    ensures Free("", '\n')
  {
  }

  lemma TagsFree()
    ensures Free(MARKER, '\n') && Free(SUFFIX, '\n') && Free(MANGLING, '\n') && Free(FILE_ID, '\n')
    ensures Free(EXIT, '\n') && Free(ACTION, '\n') && Free(TAG, '\n') && Free(SIZE, '\n')
  {
  }

  lemma SameMembers(sorted: seq<(int, string)>, exits: seq<(int, string)>, i: nat)
    requires IsSortedExits(sorted, exits) && i < |sorted|
    ensures sorted[i] in exits
  {
    assert sorted[i] in multiset(sorted);
  }

  lemma LinesFree(s: Surface, exits: seq<(int, string)>)
    requires Plain(s) && IsSortedExits(exits, s.exits)
    ensures AllFree(Lines(s, exits), '\n')
  {
    hide Free, Tagged, MemberRows, ExitRows, TagRows, EnumsLines, PlainEnum;
    forall i | 0 <= i < |exits| ensures Free(exits[i].1, '\n') {
      SameMembers(exits, s.exits, i);
    }
    TagsFree();
    EnumsFree(s.enums);
    ExitRowsFree(exits);
    TagRowsFree(s.tags);
    MemberRowsFree(s.sizes);
    TaggedFree(MARKER, s.markers);
    TaggedFree(SUFFIX, s.suffixes);
    TaggedFree(EXIT, ExitRows(exits));
    TaggedFree(ACTION, s.actions);
    TaggedFree(TAG, TagRows(s.tags));
    TaggedFree(SIZE, MemberRows(s.sizes));
    FreeConcat(MANGLING, s.mangling, '\n');
    FreeConcat(FILE_ID, s.fileId, '\n');
  }

  // ---------------------------------------------------------------- the theorem

  ghost predicate EqualUpToExitOrder(s: Surface, t: Surface) {
    s == t.(exits := s.exits) && multiset(s.exits) == multiset(t.exits)
  }

  /** Equal lines come from equal surfaces, section by section. */
  lemma LinesInjective(s: Surface, es: seq<(int, string)>, t: Surface, et: seq<(int, string)>)
    requires Plain(s) && Plain(t) && Lines(s, es) == Lines(t, et)
    ensures es == et && s == t.(exits := s.exits)
  {
    hide Free, Tagged, MemberRows, ExitRows, TagRows, EnumsLines, PlainEnum, HasTag, HasColon;
    var s9, t9 := Tagged(SIZE, MemberRows(s.sizes)), Tagged(SIZE, MemberRows(t.sizes));
    var s8, t8 := Tagged(TAG, TagRows(s.tags)) + s9, Tagged(TAG, TagRows(t.tags)) + t9;
    var s7, t7 := Tagged(ACTION, s.actions) + s8, Tagged(ACTION, t.actions) + t8;
    var s6, t6 := Tagged(EXIT, ExitRows(es)) + s7, Tagged(EXIT, ExitRows(et)) + t7;
    var s5, t5 := [FILE_ID + s.fileId] + s6, [FILE_ID + t.fileId] + t6;
    var s4, t4 := [MANGLING + s.mangling] + s5, [MANGLING + t.mangling] + t5;
    var s3, t3 := Tagged(SUFFIX, s.suffixes) + s4, Tagged(SUFFIX, t.suffixes) + t4;
    var s2, t2 := Tagged(MARKER, s.markers) + s3, Tagged(MARKER, t.markers) + t3;
    var s1, t1 := EnumsLines(s.enums) + s2, EnumsLines(t.enums) + t2;
    HeadTail(s.version, s1, t.version, t1);
    Sections(s.markers, s.suffixes, s.mangling, s5);
    Sections(t.markers, t.suffixes, t.mangling, t5);
    EnumsSplit(s.enums, t.enums, s2, t2);
    TaggedSplit(MARKER, s.markers, t.markers, s3, t3);
    TaggedSplit(SUFFIX, s.suffixes, t.suffixes, s4, t4);
    HeadTail(MANGLING + s.mangling, s5, MANGLING + t.mangling, t5);
    HeadTail(FILE_ID + s.fileId, s6, FILE_ID + t.fileId, t6);
    HasOwnTag(MANGLING, s.mangling);
    HasOwnTag(MANGLING, t.mangling);
    HasOwnTag(FILE_ID, s.fileId);
    HasOwnTag(FILE_ID, t.fileId);
    LateSections(s.actions, TagRows(s.tags), MemberRows(s.sizes));
    LateSections(t.actions, TagRows(t.tags), MemberRows(t.sizes));
    TaggedSplit(EXIT, ExitRows(es), ExitRows(et), s7, t7);
    TaggedSplit(ACTION, s.actions, t.actions, s8, t8);
    TaggedSplit(TAG, TagRows(s.tags), TagRows(t.tags), s9, t9);
    assert s9 + [] == s9 && t9 + [] == t9;
    TaggedSplit(SIZE, MemberRows(s.sizes), MemberRows(t.sizes), [], []);
    ExitRowsInjective(es, et);
    TagRowsInjective(s.tags, t.tags);
    MemberRowsInjective(s.sizes, t.sizes);
  }

  lemma HeadTail(a: string, r: seq<string>, b: string, s: seq<string>)
    requires [a] + r == [b] + s
    ensures a == b && r == s
  {
    assert ([a] + r)[0] == a && ([b] + s)[0] == b && ([a] + r)[1..] == r && ([b] + s)[1..] == s;
  }

  /** The enums end where the markers, the suffixes or the mangling rule begin. */
  lemma Sections(markers: seq<string>, suffixes: seq<string>, mangling: string, rest: seq<string>)
    ensures var r4 := [MANGLING + mangling] + rest;
            var r3 := Tagged(SUFFIX, suffixes) + r4;
            && Foreign(SUFFIX, r4) && Foreign(MARKER, r3) && AfterEnums(Tagged(MARKER, markers) + r3)
  {
    var r4 := [MANGLING + mangling] + rest;
    var r3 := Tagged(SUFFIX, suffixes) + r4;
    var r2 := Tagged(MARKER, markers) + r3;
    hide HasTag, Differ;
    TagsDiffer();
    ForeignLine(SUFFIX, MANGLING, mangling);
    ForeignLine(MARKER, MANGLING, mangling);
    ForeignSection(MARKER, SUFFIX, suffixes, r4);
    if markers != [] {
      assert r2[0] == MARKER + markers[0] && r2[0][6] == ':';
    } else if suffixes != [] {
      assert r2[0] == r3[0] == SUFFIX + suffixes[0] && r2[0][10] == ':';
    } else {
      assert r2[0] == r4[0] == MANGLING + mangling && r2[0][8] == ':';
    }
  }

  lemma LateSections(actions: seq<string>, tags: seq<string>, sizes: seq<string>)
    ensures var r9 := Tagged(SIZE, sizes);
            var r8 := Tagged(TAG, tags) + r9;
            && Foreign(TAG, r9) && Foreign(ACTION, r8) && Foreign(EXIT, Tagged(ACTION, actions) + r8)
  {
    hide HasTag, Differ, Tagged;
    var r9 := Tagged(SIZE, sizes);
    TagsDiffer();
    assert r9 + [] == r9;
    ForeignSection(TAG, SIZE, sizes, []);
    ForeignSection(ACTION, SIZE, sizes, []);
    ForeignSection(EXIT, SIZE, sizes, []);
    ForeignSection(ACTION, TAG, tags, r9);
    ForeignSection(EXIT, TAG, tags, r9);
    ForeignSection(EXIT, ACTION, actions, Tagged(TAG, tags) + r9);
  }

  /** Two surfaces have one canonical text exactly if they differ in the order of the exit codes alone. */
  lemma TextDeterminesSurface(s: Surface, es: seq<(int, string)>, t: Surface, et: seq<(int, string)>)
    requires Plain(s) && Plain(t) && IsSortedExits(es, s.exits) && IsSortedExits(et, t.exits)
    ensures Unlines(Lines(s, es)) == Unlines(Lines(t, et)) <==> EqualUpToExitOrder(s, t)
  {
    hide Lines, Unlines, Plain;
    if Unlines(Lines(s, es)) == Unlines(Lines(t, et)) {
      LinesFree(s, es);
      LinesFree(t, et);
      UnlinesInjective(Lines(s, es), Lines(t, et));
      LinesInjective(s, es, t, et);
    }
    if EqualUpToExitOrder(s, t) {
      AscendingUnique(es, et);
      SameLines(s, t, es);
    }
  }

  lemma SameLines(s: Surface, t: Surface, exits: seq<(int, string)>)
    requires s == t.(exits := s.exits)
    ensures Lines(s, exits) == Lines(t, exits)
  {
  }
}
