/**
 Makefile-format dependency files: where the target ends, how the prerequisites are told apart, and
 why an escaped rendering is read back exactly.
 */
module Depfile {
  import opened Sequences

  predicate IsWhite(c: char) {
    c == ' ' || c == '\t' || c == '\r' || c == '\n'
  }

  /** White space that the escapes cannot put into a token. */
  predicate IsBreak(c: char) {
    c == '\t' || c == '\r' || c == '\n'
  }

  // ---------------------------------------------------------------- what the tokeniser computes

  function Flush(current: string): seq<string> {
    if current == "" then [] else [current]
  }

  /** The length of a line continuation at the front of `t`, or 0. */
  function Continuation(t: string): (n: nat)
    ensures n <= |t|
  {
    if |t| >= 2 && t[0] == '\\' && t[1] == '\n' then 2
    else if |t| >= 3 && t[0] == '\\' && t[1] == '\r' && t[2] == '\n' then 3
    else 0
  }

  /** The tokens of `t`, when `current` is what has been read of the first one. */
  function Scan(t: string, current: string): seq<string>
    decreases |t|
  {
    if t == "" then Flush(current)
    else if Continuation(t) > 0 then Flush(current) + Scan(t[Continuation(t)..], "")
    else if |t| >= 2 && t[0] == '\\' && (t[1] == ' ' || t[1] == '\\') then Scan(t[2..], current + [t[1]])
    else if IsWhite(t[0]) then Flush(current) + Scan(t[1..], "")
    else Scan(t[1..], current + [t[0]])
  }

  /** The first unescaped colon in front of white space or the end, or -1. */
  function Separator(t: string): (r: int)
    ensures -1 <= r < |t|
  {
    if t == "" then -1
    else if t[0] == '\\' && |t| > 1 then Offset(2, Separator(t[2..]))
    else if t[0] == ':' && (|t| == 1 || IsWhite(t[1])) then 0
    else Offset(1, Separator(t[1..]))
  }

  function Offset(n: nat, r: int): int {
    if r < 0 then -1 else n + r
  }

  function Parse(text: string): seq<string> {
    var colon := Separator(text);
    if colon < 0 then [] else Scan(text[colon + 1..], "")
  }

  /** The width of the white space or continuation at the front of `t`, or 0. */
  function BlankWidth(t: string): (n: nat)
    ensures n <= |t|
  {
    if Continuation(t) > 0 then Continuation(t)
    else if t != "" && IsWhite(t[0]) then 1
    else 0
  }

  /** White space ends the token being read. */
  lemma BlankTurn(t: string, current: string)
    requires BlankWidth(t) > 0
    ensures Scan(t, current) == Flush(current) + Scan(t[BlankWidth(t)..], "")
  {
  }

  /** An escaped space or backslash goes into the token. */
  lemma EscapeTurn(t: string, current: string)
    requires |t| >= 2 && t[0] == '\\' && (t[1] == ' ' || t[1] == '\\')
    ensures Scan(t, current) == Scan(t[2..], current + [t[1]])
  {
  }

  /** So does any other character. */
  lemma CharTurn(t: string, current: string)
    requires t != "" && BlankWidth(t) == 0 && (t[0] == '\\' && |t| >= 2 ==> t[1] != ' ' && t[1] != '\\')
    ensures Scan(t, current) == Scan(t[1..], current + [t[0]])
  {
  }

  // ---------------------------------------------------------------- the tokeniser

  method FindTargetSeparator(text: string) returns (colon: int)
    ensures colon == Separator(text)
  {
    var i := 0;
    while i < |text|
      invariant 0 <= i <= |text|
      invariant Separator(text) == Offset(i, Separator(text[i..]))
    {
      var c := text[i];
      ghost var t := text[i..];
      if c == '\\' && i + 1 < |text| {
        i := i + 2;
        assert t[2..] == text[i..];
        continue;
      }
      if c == ':' {
        if i + 1 >= |text| {
          return i;
        }
        if IsWhite(text[i + 1]) {
          return i;
        }
      }
      i := i + 1;
      assert t[1..] == text[i..];
    }
    colon := -1;
  }

  /** A blank of width `n` at position `i`. */
  predicate BlankAt(text: string, i: nat, n: nat)
    requires i < |text|
  {
    || (n == 1 && IsWhite(text[i]))
    || (n == 2 && i + 2 <= |text| && text[i] == '\\' && text[i + 1] == '\n')
    || (n == 3 && i + 3 <= |text| && text[i] == '\\' && text[i + 1] == '\r' && text[i + 2] == '\n')
  }

  predicate EscapeAt(text: string, i: nat)
    requires i < |text|
  {
    i + 1 < |text| && text[i] == '\\' && (text[i + 1] == ' ' || text[i + 1] == '\\')
  }

  lemma BlankStep(text: string, i: nat, n: nat, tokens: seq<string>, current: string)
    requires i < |text| && BlankAt(text, i, n)
    ensures i + n <= |text|
    ensures tokens + Scan(text[i..], current)
         == tokens + Flush(current) + Scan(text[i + n..], "")
  {
    hide Scan;
    assert text[i..][n..] == text[i + n..];
    BlankTurn(text[i..], current);
  }

  lemma EscapeStep(text: string, i: nat, current: string)
    requires i < |text| && EscapeAt(text, i)
    ensures Scan(text[i..], current) == Scan(text[i + 2..], current + [text[i + 1]])
  {
    assert text[i..][2..] == text[i + 2..];
    EscapeTurn(text[i..], current);
  }

  lemma CharStep(text: string, i: nat, current: string)
    requires i < |text| && !EscapeAt(text, i)
    requires !BlankAt(text, i, 1) && !BlankAt(text, i, 2) && !BlankAt(text, i, 3)
    ensures Scan(text[i..], current) == Scan(text[i + 1..], current + [text[i]])
  {
    assert text[i..][1..] == text[i + 1..];
    CharTurn(text[i..], current);
  }

  /** One turn of the tokeniser: the position moves on, and what is still to come moves with it. */
  method ReadLogicalChar(text: string, i: nat, tokens: seq<string>, current: string)
    returns (next: nat, tokens': seq<string>, current': string)
    requires i < |text|
    ensures i < next <= |text|
    ensures tokens + Scan(text[i..], current) == tokens' + Scan(text[next..], current')
  {
    hide Scan;
    var c, n := text[i], |text|;
    if c == '\\' && i + 1 < n {
      if text[i + 1] == '\n' {
        BlankStep(text, i, 2, tokens, current);
        tokens' := FlushTo(tokens, current);
        return i + 2, tokens', "";
      }
      if text[i + 1] == '\r' && i + 2 < n && text[i + 2] == '\n' {
        BlankStep(text, i, 3, tokens, current);
        tokens' := FlushTo(tokens, current);
        return i + 3, tokens', "";
      }
      if text[i + 1] == ' ' || text[i + 1] == '\\' {
        EscapeStep(text, i, current);
        return i + 2, tokens, current + [text[i + 1]];
      }
      CharStep(text, i, current);
      return i + 1, tokens, current + ['\\'];
    }
    if IsWhite(c) {
      BlankStep(text, i, 1, tokens, current);
      tokens' := FlushTo(tokens, current);
      return i + 1, tokens', "";
    }
    CharStep(text, i, current);
    return i + 1, tokens, current + [c];
  }

  /** The token being read, if there is one, joins the others. */
  method FlushTo(tokens: seq<string>, current: string) returns (r: seq<string>)
    ensures r == tokens + Flush(current)
  {
    r := tokens;
    if current != "" {
      r := r + [current];
    } else {
      assert tokens + [] == tokens;
    }
  }

  method ParseClangMakefileDepfile(text: string) returns (tokens: seq<string>)
    ensures tokens == Parse(text)
  {
    var colon := FindTargetSeparator(text);
    tokens := [];
    if colon < 0 {
      return;
    }
    var current := "";
    var i := colon + 1;
    assert [] + Scan(text[i..], "") == Scan(text[i..], "");
    while i < |text|
      invariant colon < i <= |text|
      invariant Parse(text) == tokens + Scan(text[i..], current)
    {
      i, tokens, current := ReadLogicalChar(text, i, tokens, current);
    }
    assert text[i..] == "";
    tokens := FlushTo(tokens, current);
  }

  // ---------------------------------------------------------------- tokens of any text

  /** What a token can be: not empty, and on one line without tabs. */
  predicate IsToken(s: string) {
    s != "" && forall i :: 0 <= i < |s| ==> !IsBreak(s[i])
  }

  predicate AllTokens(ts: seq<string>) {
    forall i :: 0 <= i < |ts| ==> IsToken(ts[i])
  }

  lemma {:induction false} ScanYieldsTokens(t: string, current: string)
    requires current != "" ==> IsToken(current)
    ensures AllTokens(Scan(t, current))
    decreases |t|
  {
    if t == "" {
    } else if Continuation(t) > 0 {
      ScanYieldsTokens(t[Continuation(t)..], "");
    } else if |t| >= 2 && t[0] == '\\' && (t[1] == ' ' || t[1] == '\\') {
      ScanYieldsTokens(t[2..], current + [t[1]]);
    } else if IsWhite(t[0]) {
      ScanYieldsTokens(t[1..], "");
    } else {
      ScanYieldsTokens(t[1..], current + [t[0]]);
    }
  }

  /** Whatever the text, every token is a nonempty line without tabs. */
  lemma ParseYieldsTokens(text: string)
    ensures AllTokens(Parse(text))
  {
    var colon := Separator(text);
    if colon >= 0 {
      ScanYieldsTokens(text[colon + 1..], "");
    }
  }

  // ---------------------------------------------------------------- rendering

  function EscapeChar(c: char): (s: string)
    ensures s != "" && s[0] != ' ' && (IsBreak(s[0]) <==> IsBreak(c))
  {
    if c == ' ' then "\\ " else if c == '\\' then "\\\\" else [c]
  }

  function Escape(s: string): string {
    if s == "" then "" else EscapeChar(s[0]) + Escape(s[1..])
  }

  datatype Blank = Space | Tab | LineFeed | CarriageReturn | UnixContinuation | WindowsContinuation

  function BlankText(b: Blank): (s: string)
    ensures s != ""
  {
    match b
    case Space => " "
    case Tab => "\t"
    case LineFeed => "\n"
    case CarriageReturn => "\r"
    case UnixContinuation => "\\\n"
    case WindowsContinuation => "\\\r\n"
  }

  function GapText(gap: seq<Blank>): string {
    if gap == [] then "" else BlankText(gap[0]) + GapText(gap[1..])
  }

  /** The prerequisites, each behind its own gap. */
  function Prerequisites(paths: seq<string>, gaps: seq<seq<Blank>>): string
    requires |gaps| >= |paths|
  {
    if paths == [] then ""
    else GapText(gaps[0]) + (Escape(paths[0]) + Prerequisites(paths[1..], gaps[1..]))
  }

  /** A gap before each path and one at the end, which alone may be empty. */
  predicate GapsFor(gaps: seq<seq<Blank>>, count: nat) {
    |gaps| == count + 1 && forall i :: 0 <= i < count ==> gaps[i] != []
  }

  function Body(paths: seq<string>, gaps: seq<seq<Blank>>): string
    requires GapsFor(gaps, |paths|)
  {
    Prerequisites(paths, gaps) + GapText(gaps[|paths|])
  }

  function Render(target: string, paths: seq<string>, gaps: seq<seq<Blank>>): string
    requires GapsFor(gaps, |paths|)
  {
    Escape(target) + (":" + Body(paths, gaps))
  }

  // ---------------------------------------------------------------- reading a rendering back

  lemma ScanHead(c: char, more: string, current: string)
    requires !IsBreak(c)
    ensures Scan(EscapeChar(c) + more, current) == Scan(more, current + [c])
  {
    hide Scan;
    var t := EscapeChar(c) + more;
    assert t[|EscapeChar(c)|..] == more;
    if c == ' ' || c == '\\' {
      EscapeTurn(t, current);
    } else {
      CharTurn(t, current);
    }
  }

  lemma ScanEscapedChar(p: string, rest: string, current: string)
    requires p != "" && !IsBreak(p[0])
    ensures Scan(Escape(p) + rest, current) == Scan(Escape(p[1..]) + rest, current + [p[0]])
  {
    hide Scan;
    Regroup(EscapeChar(p[0]), Escape(p[1..]), rest);
    ScanHead(p[0], Escape(p[1..]) + rest, current);
  }

  lemma ScanEscapedBreak(p: string, rest: string, current: string)
    requires p != "" && IsBreak(p[0])
    ensures Scan(Escape(p) + rest, current) == Flush(current) + Scan(Escape(p[1..]) + rest, "")
  {
    hide Scan;
    Regroup(EscapeChar(p[0]), Escape(p[1..]), rest);
    var t := [p[0]] + (Escape(p[1..]) + rest);
    assert t[1..] == Escape(p[1..]) + rest;
    BlankTurn(t, current);
  }

  lemma {:induction false} ScanEscaped(p: string, rest: string, current: string)
    requires forall i :: 0 <= i < |p| ==> !IsBreak(p[i])
    ensures Scan(Escape(p) + rest, current) == Scan(rest, current + p)
    decreases |p|
  {
    hide Scan;
    if p == "" {
      assert Escape(p) + rest == rest && current + p == current;
    } else {
      ScanEscapedChar(p, rest, current);
      ScanEscaped(p[1..], rest, current + [p[0]]);
      Regroup(current, [p[0]], p[1..]);
      assert [p[0]] + p[1..] == p;
    }
  }

  lemma ScanBlank(b: Blank, rest: string, current: string)
    ensures Scan(BlankText(b) + rest, current) == Flush(current) + Scan(rest, "")
  {
    hide Scan;
    var t := BlankText(b) + rest;
    assert t[|BlankText(b)|..] == rest;
    assert forall i :: 0 <= i < |BlankText(b)| ==> t[i] == BlankText(b)[i];
    assert BlankWidth(t) == |BlankText(b)|;
    BlankTurn(t, current);
  }

  lemma {:induction false} ScanGap(gap: seq<Blank>, rest: string, current: string)
    requires gap != [] || current == ""
    ensures Scan(GapText(gap) + rest, current) == Flush(current) + Scan(rest, "")
    decreases |gap|
  {
    if gap == [] {
      assert GapText(gap) + rest == rest;
    } else {
      ScanGap(gap[1..], rest, "");
      ScanBlank(gap[0], GapText(gap[1..]) + rest, current);
      assert GapText(gap) + rest == BlankText(gap[0]) + (GapText(gap[1..]) + rest);
      assert Flush("") + Scan(rest, "") == Scan(rest, "");
    }
  }

  lemma ScanEnd(gap: seq<Blank>, current: string)
    ensures Scan(GapText(gap), current) == Flush(current)
  {
    assert GapText(gap) + "" == GapText(gap);
    if gap != [] {
      ScanGap(gap, "", current);
    }
  }

  /** The body gives the paths, after whatever was being read in front of it. */
  lemma {:induction false} ScanBody(paths: seq<string>, gaps: seq<seq<Blank>>, current: string)
    requires GapsFor(gaps, |paths|) && AllTokens(paths)
    ensures Scan(Body(paths, gaps), current) == Flush(current) + paths
    decreases |paths|
  {
    if paths == [] {
      ScanEnd(gaps[0], current);
      assert Body(paths, gaps) == GapText(gaps[0]);
    } else {
      hide Scan, Escape, GapText;
      var rest := Body(paths[1..], gaps[1..]);
      BodySplits(paths, gaps);
      assert IsToken(paths[0]);
      ScanGap(gaps[0], Escape(paths[0]) + rest, current);
      ScanEscaped(paths[0], rest, "");
      assert "" + paths[0] == paths[0];
      ScanBody(paths[1..], gaps[1..], paths[0]);
      assert [paths[0]] + paths[1..] == paths;
    }
  }

  lemma ScanWholeBody(paths: seq<string>, gaps: seq<seq<Blank>>)
    requires GapsFor(gaps, |paths|) && AllTokens(paths)
    ensures Scan(Body(paths, gaps), "") == paths
  {
    ScanBody(paths, gaps, "");
    assert Flush("") + paths == paths;
  }

  lemma BodySplits(paths: seq<string>, gaps: seq<seq<Blank>>)
    requires GapsFor(gaps, |paths|) && paths != []
    ensures Body(paths, gaps) == GapText(gaps[0]) + (Escape(paths[0]) + Body(paths[1..], gaps[1..]))
  {
    hide Escape, GapText;
  }

  // ---------------------------------------------------------------- the separator of a rendering

  /** A target the separator search does not stop inside of. */
  predicate CleanTarget(target: string) {
    forall i :: 0 <= i < |target| - 1 && target[i] == ':' ==> !IsBreak(target[i + 1])
  }

  /** What must follow the separating colon. */
  predicate StartsBlank(body: string) {
    body == "" || IsWhite(body[0])
  }

  /** The search moves over one character of an escaped target. */
  lemma SeparatorTurn(target: string, tail: string)
    requires target != "" && tail != "" && tail[0] == ':'
    ensures Separator(Escape(target) + tail)
         == if |target| > 1 && target[0] == ':' && IsBreak(target[1]) then 0
            else Offset(|EscapeChar(target[0])|, Separator(Escape(target[1..]) + tail))
  {
    hide Separator;
    var head, more := EscapeChar(target[0]), Escape(target[1..]) + tail;
    Regroup(head, Escape(target[1..]), tail);
    assert (head + more)[|head|..] == more;
    SeparatorStep(head + more);
    assert (head + more)[|head|] == more[0];
  }

  lemma SeparatorStep(t: string)
    requires t != ""
    ensures Separator(t)
         == if t[0] == '\\' && |t| > 1 then Offset(2, Separator(t[2..]))
            else if t[0] == ':' && (|t| == 1 || IsWhite(t[1])) then 0
            else Offset(1, Separator(t[1..]))
  {
  }

  /** What the search passes over does not matter to the tokens. */
  lemma ParsePasses(t: string, n: nat)
    requires n <= |t| && Separator(t) == Offset(n, Separator(t[n..]))
    ensures Parse(t) == Parse(t[n..])
  {
    hide Scan, Separator;
    var u := t[n..];
    var colon := Separator(u);
    if colon >= 0 {
      assert t[n + colon + 1..] == u[colon + 1..];
    }
  }

  /** A colon ends the search if white space or nothing follows it, and only then. */
  lemma ParseColon(rest: string)
    ensures Parse(":" + rest) == if StartsBlank(rest) then Scan(rest, "") else Parse(rest)
  {
    hide Scan, Separator;
    var t := ":" + rest;
    assert t[1..] == rest;
    SeparatorStep(t);
    if !StartsBlank(rest) {
      ParsePasses(t, 1);
    }
  }

  /** The search passes over an escaped target without an early colon, up to the colon after it. */
  lemma {:induction false} ParseOfClean(target: string, body: string)
    requires CleanTarget(target)
    ensures Parse(Escape(target) + (":" + body)) == if StartsBlank(body) then Scan(body, "") else Parse(body)
    decreases |target|
  {
    hide Scan, Separator, Parse;
    var tail := ":" + body;
    if target == "" {
      assert Escape(target) + tail == tail;
      ParseColon(body);
    } else {
      var t, n := Escape(target) + tail, |EscapeChar(target[0])|;
      SeparatorTurn(target, tail);
      TailOfClean(target);
      assert t[n..] == Escape(target[1..]) + tail;
      ParsePasses(t, n);
      ParseOfClean(target[1..], body);
    }
  }

  lemma TailOfClean(target: string)
    requires target != ""
    ensures CleanTarget(target)
       <==> CleanTarget(target[1..]) && !(|target| > 1 && target[0] == ':' && IsBreak(target[1]))
  {
    if CleanTarget(target[1..]) {
      forall i | 0 < i < |target| - 1 && target[i] == ':'
        ensures !IsBreak(target[i + 1])
      {
        assert target[1..][i - 1] == ':';
      }
    }
  }

  /** In any other target the search stops at a colon inside. */
  lemma {:induction false} SeparatorOfDirty(target: string, body: string) returns (left: string, p: string)
    requires !CleanTarget(target)
    ensures Escape(target) == left + (":" + Escape(p))
    ensures Separator(Escape(target) + (":" + body)) == |left|
    decreases |target|
  {
    hide Separator;
    SeparatorTurn(target, ":" + body);
    if |target| > 1 && target[0] == ':' && IsBreak(target[1]) {
      left, p := "", target[1..];
    } else {
      TailOfClean(target);
      left, p := SeparatorOfDirty(target[1..], body);
      Regroup(EscapeChar(target[0]), left, ":" + Escape(p));
      left := EscapeChar(target[0]) + left;
    }
  }

  /** What follows such a colon adds a token in front of the paths. */
  lemma {:induction false} ScanLonger(p: string, paths: seq<string>, gaps: seq<seq<Blank>>, current: string)
    requires GapsFor(gaps, |paths|) && AllTokens(paths)
    ensures |Scan(Escape(p) + (":" + Body(paths, gaps)), current)| > |paths|
    decreases |p|
  {
    hide Scan, Body;
    var tail := ":" + Body(paths, gaps);
    if p == "" {
      assert Escape(p) + tail == tail && tail[1..] == Body(paths, gaps);
      CharTurn(tail, current);
      ScanBody(paths, gaps, current + ":");
    } else if IsBreak(p[0]) {
      ScanEscapedBreak(p, tail, current);
      ScanLonger(p[1..], paths, gaps, "");
    } else {
      ScanEscapedChar(p, tail, current);
      ScanLonger(p[1..], paths, gaps, current + [p[0]]);
    }
  }

  // ---------------------------------------------------------------- a continuation behind the colon

  predicate IsContinuation(b: Blank) {
    b == UnixContinuation || b == WindowsContinuation
  }

  /** The gap begins with a line continuation. */
  predicate Continues(gap: seq<Blank>) {
    gap != [] && IsContinuation(gap[0])
  }

  lemma StartOfBody(paths: seq<string>, gaps: seq<seq<Blank>>)
    requires GapsFor(gaps, |paths|)
    ensures StartsBlank(Body(paths, gaps)) <==> !Continues(gaps[0])
  {
    hide Escape;
    if paths != [] {
      BodySplits(paths, gaps);
    }
    if gaps[0] != [] {
      assert Body(paths, gaps)[0] == BlankText(gaps[0][0])[0];
    }
  }

  lemma ParseBlank(b: Blank, rest: string)
    ensures Parse(BlankText(b) + rest) == Parse(rest)
  {
    hide Scan, Separator, Parse;
    var t := BlankText(b) + rest;
    SeparatorStep(t);
    assert t[|BlankText(b)|..] == rest;
    if b == WindowsContinuation {
      var u := "\n" + rest;
      assert t[2..] == u && u[1..] == rest;
      ParsePasses(t, 2);
      SeparatorStep(u);
      ParsePasses(u, 1);
    } else {
      ParsePasses(t, |BlankText(b)|);
    }
  }

  lemma {:induction false} ParseGap(gap: seq<Blank>, rest: string)
    ensures Parse(GapText(gap) + rest) == Parse(rest)
    decreases |gap|
  {
    hide Parse;
    if gap == [] {
      assert GapText(gap) + rest == rest;
    } else {
      assert GapText(gap) + rest == BlankText(gap[0]) + (GapText(gap[1..]) + rest);
      ParseBlank(gap[0], GapText(gap[1..]) + rest);
      ParseGap(gap[1..], rest);
    }
  }

  /** The search stops in front of the end of an escaped token at most: at a final colon. */
  lemma {:induction false} ParseEscaped(p: string, rest: string)
    requires IsToken(p)
    ensures Parse(Escape(p) + rest)
         == if p[|p| - 1] == ':' && StartsBlank(rest) then Scan(rest, "") else Parse(rest)
    decreases |p|
  {
    hide Scan, Separator, Parse;
    var head, more := EscapeChar(p[0]), Escape(p[1..]) + rest;
    var t := head + more;
    Regroup(head, Escape(p[1..]), rest);
    assert t[|head|..] == more;
    if |p| == 1 && p[0] == ':' {
      assert more == rest;
      ParseColon(rest);
    } else {
      SeparatorStep(t);
      if |p| > 1 {
        assert more[0] == EscapeChar(p[1])[0];
      }
      ParsePasses(t, |head|);
      if |p| == 1 {
        assert more == rest;
      } else {
        ParseEscaped(p[1..], rest);
      }
    }
  }

  lemma NothingToParse(gap: seq<Blank>)
    ensures Parse(GapText(gap)) == []
  {
    ParseGap(gap, "");
    assert GapText(gap) + "" == GapText(gap);
  }

  /** A body read as if its colon had not been seen: if a path in it ends in a colon, only the paths
      behind are left, and nothing otherwise. */
  lemma {:induction false} BodyAloneLoses(paths: seq<string>, gaps: seq<seq<Blank>>)
    requires GapsFor(gaps, |paths|) && AllTokens(paths)
    ensures |Parse(Body(paths, gaps))| < |paths| || |Parse(Body(paths, gaps))| == |paths| == 0
    decreases |paths|
  {
    if paths == [] {
      NothingToParse(gaps[0]);
      assert Body(paths, gaps) == GapText(gaps[0]);
    } else {
      assert IsToken(paths[0]) && AllTokens(paths[1..]);
      BodySplits(paths, gaps);
      hide *;
      var rest := Body(paths[1..], gaps[1..]);
      ParseGap(gaps[0], Escape(paths[0]) + rest);
      ParseEscaped(paths[0], rest);
      ScanWholeBody(paths[1..], gaps[1..]);
      BodyAloneLoses(paths[1..], gaps[1..]);
    }
  }

  lemma Behind(left: string, right: string)
    ensures (left + (":" + right))[|left| + 1..] == right
  {
  }

  // ---------------------------------------------------------------- the theorem

  /** An escaped dependency file is read back exactly if its target has no colon in front of a tab or a
      line break and, unless it lists nothing, no line continuation stands right behind its separating
      colon; and only then. */
  lemma RoundTrip(target: string, paths: seq<string>, gaps: seq<seq<Blank>>)
    requires AllTokens(paths) && GapsFor(gaps, |paths|)
    ensures Parse(Render(target, paths, gaps)) == paths
       <==> CleanTarget(target) && (paths == [] || !Continues(gaps[0]))
  {
    hide Scan, Separator, Parse, Escape, Body;
    var body := Body(paths, gaps);
    if CleanTarget(target) {
      ParseOfClean(target, body);
      StartOfBody(paths, gaps);
      ScanWholeBody(paths, gaps);
      BodyAloneLoses(paths, gaps);
    } else {
      DirtyAddsToken(target, paths, gaps);
    }
  }

  lemma DirtyAddsToken(target: string, paths: seq<string>, gaps: seq<seq<Blank>>)
    requires AllTokens(paths) && GapsFor(gaps, |paths|) && !CleanTarget(target)
    ensures |Parse(Render(target, paths, gaps))| > |paths|
  {
    hide Scan, Separator, Escape, Body;
    var body := Body(paths, gaps);
    var left, p := SeparatorOfDirty(target, body);
    Regroup(left, ":" + Escape(p), ":" + body);
    Regroup(":", Escape(p), ":" + body);
    Behind(left, Escape(p) + (":" + body));
    ScanLonger(p, paths, gaps, "");
  }

  /** The smallest file that loses its path: `a`, a colon, a continued line, and `b`. */
  lemma ContinuationHidesColon()
    ensures Render("a", ["b"], [[UnixContinuation, Space], []]) == "a:\\\n b"
    ensures Parse("a:\\\n b") == []
  {
    var gaps := [[UnixContinuation, Space], []];
    assert GapText(gaps[0]) == "\\\n ";
    assert Body(["b"], gaps) == "\\\n b";
    BodyAloneLoses(["b"], gaps);
    ParseOfClean("a", "\\\n b");
  }

  /** Rendering the tokens of any text gives a text with the same tokens under the same condition. */
  lemma Canonicalises(text: string, target: string, gaps: seq<seq<Blank>>)
    requires GapsFor(gaps, |Parse(text)|)
    ensures Parse(Render(target, Parse(text), gaps)) == Parse(text)
       <==> CleanTarget(target) && (Parse(text) == [] || !Continues(gaps[0]))
  {
    ParseYieldsTokens(text);
    RoundTrip(target, Parse(text), gaps);
  }
}
