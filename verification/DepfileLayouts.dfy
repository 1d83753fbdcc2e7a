/**
 Dependency files of any form: what counts as the end of the target, and how the text behind it falls apart
 into white space, escaped characters and plain ones. A file is read as these tokens exactly if it has such a form.
 */
module DepfileLayouts {
  import opened Depfile

  // ---------------------------------------------------------------- the end of the target

  /** How many backslashes stand directly in front of position `i`. */
  function Backslashes(text: string, i: nat): nat
    requires i <= |text|
  {
    if i == 0 || text[i - 1] != '\\' then 0 else 1 + Backslashes(text, i - 1)
  }

  /** A colon that is not escaped, and behind it one of the four white characters or nothing. */
  predicate EndsTarget(text: string, i: nat) {
    && i < |text| && text[i] == ':' && Backslashes(text, i) % 2 == 0
    && (i + 1 == |text| || text[i + 1] in " \t\r\n")
  }

  /** At or behind position `i`, the first end of the target is `s` further on; with -1, there is none. */
  ghost predicate FirstFrom(text: string, i: nat, s: int) {
    if s < 0 then forall j: nat :: i <= j ==> !EndsTarget(text, j)
    else EndsTarget(text, i + s) && forall j: nat :: i <= j < i + s ==> !EndsTarget(text, j)
  }

  lemma FirstFromEarlier(text: string, i: nat, n: nat, s: int)
    requires FirstFrom(text, i + n, s) && forall j: nat :: i <= j < i + n ==> !EndsTarget(text, j)
    ensures FirstFrom(text, i, Offset(n, s))
  {
    hide EndsTarget;
  }

  lemma {:induction false} SeparatorFrom(text: string, i: nat)
    requires i <= |text| && Backslashes(text, i) % 2 == 0
    ensures FirstFrom(text, i, Separator(text[i..]))
    decreases |text| - i
  {
    if i < |text| {
      var t := text[i..];
      if text[i] == '\\' && i + 1 < |text| {
        assert t[2..] == text[i + 2..];
        assert Backslashes(text, i + 1) == Backslashes(text, i) + 1;
        assert !EndsTarget(text, i) && !EndsTarget(text, i + 1);
        SeparatorFrom(text, i + 2);
        FirstFromEarlier(text, i, 2, Separator(t[2..]));
      } else if !EndsTarget(text, i) {
        assert t[1..] == text[i + 1..];
        if i + 1 < |text| {
          SeparatorFrom(text, i + 1);
        }
        FirstFromEarlier(text, i, 1, Separator(t[1..]));
      }
    }
  }

  /** The target ends at the first colon that can end it; -1 says that there is none. */
  lemma SeparatorExactly(text: string, c: nat)
    ensures Separator(text) == c <==> EndsTarget(text, c) && forall j: nat :: j < c ==> !EndsTarget(text, j)
    ensures Separator(text) == -1 <==> forall j: nat :: !EndsTarget(text, j)
  {
    assert text[0..] == text;
    SeparatorFrom(text, 0);
  }

  // ---------------------------------------------------------------- the text behind it

  /** White space and continuations, escaped spaces and backslashes, and characters that stand for themselves. */
  datatype Region =
    | End
    | Gap(blank: Blank, rest: Region)
    | Escaped(c: char, rest: Region)
    | Plain(c: char, rest: Region)

  function Text(r: Region): string {
    match r
    case End => ""
    case Gap(Space, rest) => " " + Text(rest)
    case Gap(Tab, rest) => "\t" + Text(rest)
    case Gap(LineFeed, rest) => "\n" + Text(rest)
    case Gap(CarriageReturn, rest) => "\r" + Text(rest)
    case Gap(UnixContinuation, rest) => "\\\n" + Text(rest)
    case Gap(WindowsContinuation, rest) => "\\\r\n" + Text(rest)
    case Escaped(c, rest) => ['\\', c] + Text(rest)
    case Plain(c, rest) => [c] + Text(rest)
  }

  /** A backslash in front of this text stands for itself. */
  predicate LeavesBackslash(t: string) {
    (t == "" || t[0] !in " \\\n") && !("\r\n" <= t)
  }

  predicate Legible(r: Region) {
    match r
    case End => true
    case Gap(_, rest) => Legible(rest)
    case Escaped(c, rest) => c in " \\" && Legible(rest)
    case Plain(c, rest) => c !in " \t\r\n" && (c == '\\' ==> LeavesBackslash(Text(rest))) && Legible(rest)
  }

  /** The characters up to the first gap. */
  function Word(r: Region): string {
    match r
    case Escaped(c, rest) => [c] + Word(rest)
    case Plain(c, rest) => [c] + Word(rest)
    case _ => ""
  }

  function BehindWord(r: Region): (s: Region)
    ensures s.End? || s.Gap?
    ensures s == r || s < r
  {
    match r
    case Escaped(_, rest) => BehindWord(rest)
    case Plain(_, rest) => BehindWord(rest)
    case _ => r
  }

  /** The words between the gaps. */
  function Words(r: Region): seq<string> {
    match r
    case End => []
    case Gap(_, rest) => Words(rest)
    case Escaped(c, rest) => [[c] + Word(rest)] + Words(BehindWord(rest))
    case Plain(c, rest) => [[c] + Word(rest)] + Words(BehindWord(rest))
  }

  lemma GapIsBlank(r: Region)
    requires r.Gap?
    ensures BlankWidth(Text(r)) > 0 && Text(r)[BlankWidth(Text(r))..] == Text(r.rest)
  {
  }

  lemma PlainIsPlain(r: Region)
    requires r.Plain? && Legible(r)
    ensures Text(r) != "" && Text(r)[0] == r.c && Text(r)[1..] == Text(r.rest) && BlankWidth(Text(r)) == 0
    ensures r.c == '\\' && |Text(r)| >= 2 ==> Text(r)[1] != ' ' && Text(r)[1] != '\\'
  {
    var t := Text(r.rest);
    assert "\r\n" <= t <==> |t| >= 2 && t[0] == '\r' && t[1] == '\n';
  }

  lemma EscapedIsEscaped(r: Region)
    requires r.Escaped? && Legible(r)
    ensures |Text(r)| >= 2 && Text(r)[0] == '\\' && Text(r)[1] == r.c && Text(r)[2..] == Text(r.rest)
    ensures r.c == ' ' || r.c == '\\'
  {
  }

  lemma ScanNothing(current: string)
    ensures Scan("", current) == Flush(current)
  {
  }

  /** What the scanner does with a legible text, whatever it has of the first word. */
  lemma {:induction false} ScanReads(r: Region, current: string)
    requires Legible(r)
    ensures Scan(Text(r), current)
         == if current == "" then Words(r) else [current + Word(r)] + Words(BehindWord(r))
    decreases r
  {
    hide Scan, BlankWidth;
    match r {
      case End =>
        ScanNothing(current);
        assert current + Word(r) == current;
      case Gap(_, rest) =>
        hide Text;
        GapIsBlank(r);
        BlankTurn(Text(r), current);
        ScanReads(rest, "");
        assert current + Word(r) == current;
      case Escaped(c, rest) =>
        hide Text;
        EscapedIsEscaped(r);
        EscapeTurn(Text(r), current);
        ScanReads(rest, current + [c]);
        assert (current + [c]) + Word(rest) == current + ([c] + Word(rest));
        assert current == "" ==> current + [c] == [c];
      case Plain(c, rest) =>
        hide Text;
        PlainIsPlain(r);
        CharTurn(Text(r), current);
        ScanReads(rest, current + [c]);
        assert (current + [c]) + Word(rest) == current + ([c] + Word(rest));
        assert current == "" ==> current + [c] == [c];
    }
  }

  /** Every text has a legible form. */
  lemma {:induction false} TakeApart(t: string) returns (r: Region)
    ensures Legible(r) && Text(r) == t
    decreases |t|
  {
    if t == "" {
      r := End;
    } else if "\\\n" <= t {
      var rest := TakeApart(t[2..]);
      r := Gap(UnixContinuation, rest);
    } else if "\\\r\n" <= t {
      var rest := TakeApart(t[3..]);
      r := Gap(WindowsContinuation, rest);
    } else if |t| >= 2 && t[0] == '\\' && t[1] in " \\" {
      var rest := TakeApart(t[2..]);
      r := Escaped(t[1], rest);
    } else {
      var rest := TakeApart(t[1..]);
      assert t == [t[0]] + t[1..];
      r := if t[0] == ' ' then Gap(Space, rest)
           else if t[0] == '\t' then Gap(Tab, rest)
           else if t[0] == '\n' then Gap(LineFeed, rest)
           else if t[0] == '\r' then Gap(CarriageReturn, rest)
           else Plain(t[0], rest);
    }
  }

  /** Behind the target's end at `c`, these words in some legible form. */
  ghost predicate Says(text: string, c: nat, tokens: seq<string>) {
    && EndsTarget(text, c) && (forall j: nat :: j < c ==> !EndsTarget(text, j))
    && exists r :: Legible(r) && text[c + 1..] == Text(r) && Words(r) == tokens
  }

  lemma SaidIsParsed(text: string, c: nat, tokens: seq<string>)
    requires Says(text, c, tokens)
    ensures Parse(text) == tokens
  {
    hide EndsTarget, Separator, Scan, Legible, Text, Words;
    SeparatorExactly(text, c);
    var r :| Legible(r) && text[c + 1..] == Text(r) && Words(r) == tokens;
    ScanReads(r, "");
  }

  lemma ParsedIsSaid(text: string, c: nat)
    requires Separator(text) == c
    ensures Says(text, c, Parse(text))
  {
    hide EndsTarget, Separator, Scan, Legible, Text, Words;
    SeparatorExactly(text, c);
    var r := TakeApart(text[c + 1..]);
    ScanReads(r, "");
  }

  /** A dependency file is read as these tokens exactly if it says them; without an end of the target it is
      read as none. */
  lemma ParsesExactly(text: string, tokens: seq<string>)
    ensures Parse(text) == tokens
       <==> (exists c: nat :: Says(text, c, tokens)) || (tokens == [] && forall j: nat :: !EndsTarget(text, j))
  {
    var s := Separator(text);
    SeparatorExactly(text, if s < 0 then 0 else s);
    if s >= 0 {
      ParsedIsSaid(text, s);
    } else {
      assert Parse(text) == [];
    }
    hide Parse, Separator, EndsTarget;
    if c: nat :| Says(text, c, tokens) {
      SaidIsParsed(text, c, tokens);
    }
  }
}
