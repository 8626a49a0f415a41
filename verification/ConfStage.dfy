/** Retargeting a staged configuration (confstage.rs): values that name the live
    directory name the stage instead. */
module ConfStage {
  import opened Options
  import opened Text
  import opened ConfFile
  import opened EditorLaws

  /** `value` starts with `prefix` on a path boundary. */
  predicate PathPrefixed(value: string, prefix: string) {
    value == prefix || (prefix <= value && |prefix| < |value| && value[|prefix|] == '/')
  }

  function SwapPrefix(value: string, from: string, to: string): string
    requires |from| <= |value|
  {
    to + value[|from|..]
  }

  predicate StartsWith(s: string, c: char) {
    s != "" && s[0] == c
  }

  predicate EndsWith(s: string, c: char) {
    s != "" && s[|s| - 1] == c
  }

  /** A definition of a variable under the live directory. */
  predicate Defines(raw: string, live: string) {
    var t := TrimStart(raw);
    var eq := IndexOf(t, '=');
    StartsWith(t, '%') && eq < |t| && EndsWith(Trim(t[..eq]), '%') && PathPrefixed(Trim(t[eq + 1..]), live)
  }

  /** Such a definition is rewritten; any other line is kept. */
  function Retarget(raw: string, live: string, stage: string): string {
    if Defines(raw, live) then
      var t := TrimStart(raw);
      var eq := IndexOf(t, '=');
      Trim(t[..eq]) + " = " + SwapPrefix(Trim(t[eq + 1..]), live, stage)
    else raw
  }

  function RetargetAll(lines: seq<string>, live: string, stage: string): (out: seq<string>)
    ensures |out| == |lines| && forall i :: 0 <= i < |lines| ==> out[i] == Retarget(lines[i], live, stage)
  {
    seq(|lines|, i requires 0 <= i < |lines| => Retarget(lines[i], live, stage))
  }

  /** The directives under the live directory, retargeted. */
  function Moves(lines: seq<string>, live: string, stage: string): seq<Change> {
    if lines == [] then []
    else LineMoves(lines[0], live, stage) + Moves(lines[1..], live, stage)
  }

  function LineMoves(raw: string, live: string, stage: string): seq<Change> {
    match ParseLine(raw)
    case KeyLine(key, value) => if PathPrefixed(value, live) then [Change(key, SwapPrefix(value, live, stage))] else []
    case _ => []
  }

  function WithEnd(lines: seq<string>, text: string): string {
    JoinLines(lines) + (if EndsInNewline(text) then "\n" else "")
  }

  function Rewritten(text: string, live: string, stage: string): string {
    var s := WithEnd(RetargetAll(Lines(text), live, stage), text);
    var changes := Moves(Lines(s), live, stage);
    if changes == [] then s else Applied(s, changes, Plain)
  }

  method RewriteConf(text: string, live: string, stage: string) returns (r: string)
    ensures r == Rewritten(text, live, stage)
  {
    hide Retarget, LineMoves, Lines, JoinLines;
    var out: seq<string> := [];
    var lines := Lines(text);
    for i := 0 to |lines|
      invariant out == RetargetAll(lines, live, stage)[..i]
    {
      var line := RetargetLine(lines[i], live, stage);
      out := out + [line];
    }
    assert RetargetAll(lines, live, stage)[..|lines|] == RetargetAll(lines, live, stage);
    assert JoinLines(out) + "" == JoinLines(out);
    var s := JoinLines(out);
    if EndsInNewline(text) { s := s + "\n"; }
    var changes: seq<Change> := [];
    var staged := Lines(s);
    assert staged[0..] == staged;
    for i := 0 to |staged|
      invariant Moves(staged, live, stage) == changes + Moves(staged[i..], live, stage)
    {
      assert staged[i..][1..] == staged[i + 1..];
      changes := changes + LineMoves(staged[i], live, stage);
    }
    assert staged[|staged|..] == [] && changes + [] == changes;
    if changes == [] {
      r := s;
    } else {
      var n;
      r, n := Apply(s, changes, Plain);
    }
  }

  method RetargetLine(raw: string, live: string, stage: string) returns (line: string)
    ensures line == Retarget(raw, live, stage)
  {
    var t := TrimStart(raw);
    if StartsWith(t, '%') {
      var eq := IndexOf(t, '=');
      if eq < |t| {
        var name, val := Trim(t[..eq]), Trim(t[eq + 1..]);
        if EndsWith(name, '%') && PathPrefixed(val, live) {
          return name + " = " + SwapPrefix(val, live, stage);
        }
      }
    }
    line := raw;
  }

  // ---- directories ------------------------------------------------------------------------

  /** An absolute directory, as `Path::display` gives it. */
  predicate IsDir(d: string) {
    d != "" && d[0] == '/' && Solid(d) && OneLine(d)
  }

  /** Neither directory lies in the other. */
  predicate Apart(live: string, stage: string) {
    IsDir(live) && IsDir(stage) && !PathPrefixed(live, stage) && !PathPrefixed(stage, live)
  }

  /** A path moved to the stage is not under the live directory, nor is it when its end is trimmed. */
  lemma SwappedApart(v: string, live: string, stage: string, w: string)
    requires Apart(live, stage) && PathPrefixed(v, live)
    requires w <= SwapPrefix(v, live, stage) && |w| >= |stage|
    ensures !PathPrefixed(w, live)
  {
    var s := SwapPrefix(v, live, stage);
    assert s[..|stage|] == stage;
  }

  // ---- reading lines ------------------------------------------------------------------------

  /** A line with a first `=`, as the parser reads it. */
  lemma ParseLineOf(p: string, r: string)
    requires NoChar(p, '=') && Trim(p) != "" && Trim(p)[0] != '#'
    ensures ParseLine(p + "=" + r) == KeyLine(Trim(p), Unquote(Trim(r)))
  {
    hide Unquote;
    var raw := p + "=" + r;
    var b := TrimEndParts(raw);
    var line := TrimEnd(raw);
    assert raw[|p|] == '=' && raw[..|p|] == p && raw[..|line|] == line;
    assert |line| > |p|;
    var r' := line[|p| + 1..];
    assert line == p + "=" + r' && r == r' + b;
    IndexOfFirst(p, '=', r');
    FirstSolid(p, line);
    TrimSuffix(r', b);
  }

  lemma TrimSuffix(s: string, b: string)
    requires AllSpace(b)
    ensures Trim(s + b) == Trim(s)
  {
    var c, d := TrimParts(s);
    TrimOf(c, Trim(s), d + b);
    assert c + Trim(s) + (d + b) == s + b;
  }

  /** A parsed key line has its key, and a first `=` to read it from. */
  lemma KeyLineParts(raw: string) returns (p: string, r: string)
    requires ParseLine(raw).KeyLine?
    ensures raw == p + "=" + r && NoChar(p, '=') && Trim(p) != "" && Trim(p)[0] != '#'
    ensures LineKey(raw) == Some(Trim(p))
  {
    var line := TrimEnd(raw);
    var b := TrimEndParts(raw);
    var eq := IndexOf(line, '=');
    p, r := line[..eq], line[eq + 1..] + b;
    FirstSolid(p, line);
  }

  lemma KeyLineHasKey(raw: string)
    ensures ParseLine(raw).KeyLine? ==> LineKey(raw) == Some(ParseLine(raw).key)
    ensures LineKey(raw).None? || LineKey(raw).value == "" ==> !ParseLine(raw).KeyLine?
  {
    hide Unquote;
  }

  lemma CommentParses(raw: string)
    ensures !ParseLine("#" + raw).KeyLine?
  {
    CommentKey(raw);
    KeyLineHasKey("#" + raw);
  }

  /** A line written by the editor reads as its key and, without quotes around it, its trimmed value. */
  lemma RenderedParses(key: string, value: string)
    requires key != "" && Trim(key) == key && NoChar(key, '=') && key[0] != '#'
    requires value != "" && value[0] == '/'
    ensures ParseLine(key + " = " + value) == KeyLine(key, TrimEnd(value))
  {
    hide TrimEnd, ParseLine, Trim;
    assert key + " = " + value == (key + " ") + "=" + (" " + value);
    SpacedKey(key);
    NoCharConcat(key, " ", '=');
    ParseLineOf(key + " ", " " + value);
    SlashTrim(value);
  }

  lemma SlashTrim(value: string)
    requires value != "" && value[0] == '/'
    ensures Trim(" " + value) == TrimEnd(value) && TrimEnd(value) != "" && TrimEnd(value)[0] == '/'
    ensures Unquote(TrimEnd(value)) == TrimEnd(value) && TrimEnd(value) <= value
  {
    TrimStartOf(" ", value);
    var b := TrimEndParts(value);
    assert value[0] == '/' && !IsSpace('/');
    assert TrimEnd(value) == value[..|TrimEnd(value)|];
  }

  // ---- no value stays under the live directory -------------------------------------------------

  /** The line names nothing under the live directory. */
  ghost predicate Clear(raw: string, live: string) {
    ParseLine(raw).KeyLine? ==> !PathPrefixed(ParseLine(raw).value, live)
  }

  ghost predicate AllClear(lines: seq<string>, live: string) {
    forall i :: 0 <= i < |lines| ==> Clear(lines[i], live)
  }

  /** A change that moves a path to the stage. */
  ghost predicate IsMove(c: Change, live: string, stage: string) {
    && c.key != "" && Trim(c.key) == c.key && NoChar(c.key, '=') && c.key[0] != '#'
    && exists v :: PathPrefixed(v, live) && c.value == SwapPrefix(v, live, stage)
  }

  ghost predicate AllMoves(changes: seq<Change>, live: string, stage: string) {
    forall i :: 0 <= i < |changes| ==> IsMove(changes[i], live, stage)
  }

  lemma MoveClear(c: Change, live: string, stage: string)
    requires Apart(live, stage) && IsMove(c, live, stage)
    ensures Clear(Rendered(c, Plain), live)
  {
    hide ParseLine, Solid;
    var v :| PathPrefixed(v, live) && c.value == SwapPrefix(v, live, stage);
    RenderedParses(c.key, c.value);
    SlashTrim(c.value);
    SwappedTrim(v, live, stage);
    SwappedApart(v, live, stage, TrimEnd(c.value));
  }

  /** Trimming the end of a moved path leaves at least the stage directory. */
  lemma SwappedTrim(v: string, live: string, stage: string)
    requires IsDir(stage) && |live| <= |v|
    ensures |TrimEnd(SwapPrefix(v, live, stage))| >= |stage|
  {
    var s := SwapPrefix(v, live, stage);
    var b := TrimEndParts(s);
    assert s[|stage| - 1] == stage[|stage| - 1];
  }

  /** Every line that is not clear has its key among the changes to make or already made. */
  ghost predicate Handled(lines: seq<string>, changes: seq<Change>, applied: seq<string>, live: string) {
    forall i :: 0 <= i < |lines| && !Clear(lines[i], live) ==>
      LineKey(lines[i]).Some? && (IsKeyOf(LineKey(lines[i]).value, changes) || LineKey(lines[i]).value in applied)
  }

  lemma {:induction false} EditClears(lines: seq<string>, changes: seq<Change>, applied: seq<string>, live: string,
                                      stage: string)
    requires Apart(live, stage) && AllMoves(changes, live, stage) && Handled(lines, changes, applied, live)
    ensures var e := EditLines(lines, changes, applied, Plain);
            AllClear(e.out, live) && AllMoves(e.remaining, live, stage)
  {
    hide Clear, LineKey, Rendered, IsMove, IsKeyOf, Apart;
    if lines != [] {
      var (line, changes', applied') := EditLine(lines[0], changes, applied, Plain);
      EditClearsLine(lines, changes, applied, live, stage);
      EditClears(lines[1..], changes', applied', live, stage);
    }
  }

  lemma EditClearsLine(lines: seq<string>, changes: seq<Change>, applied: seq<string>, live: string, stage: string)
    requires Apart(live, stage) && AllMoves(changes, live, stage) && Handled(lines, changes, applied, live)
             && lines != []
    ensures var (line, changes', applied') := EditLine(lines[0], changes, applied, Plain);
            Clear(line, live) && AllMoves(changes', live, stage) && Handled(lines[1..], changes', applied', live)
  {
    hide Clear, LineKey, Rendered, IsMove, IsKeyOf, Apart;
    var rest := lines[1..];
    assert forall i :: 0 <= i < |rest| ==> rest[i] == lines[i + 1];
    match LineKey(lines[0])
    case None =>
    case Some(key) =>
      var pos := Position(changes, key);
      PositionFinds(changes, key);
      if pos < |changes| {
        MoveClear(changes[pos], live, stage);
        WithoutSome(changes, pos);
      } else if key in applied {
        CommentParses(lines[0]);
        ClearIfNoKey("#" + lines[0], live);
      }
  }

  lemma ClearIfNoKey(raw: string, live: string)
    requires !ParseLine(raw).KeyLine?
    ensures Clear(raw, live)
  {
  }

  lemma WithoutSome(changes: seq<Change>, pos: nat)
    requires pos < |changes|
    ensures forall k :: IsKeyOf(k, changes) ==> IsKeyOf(k, Without(changes, pos)) || k == changes[pos].key
  {
    var w := Without(changes, pos);
    forall k | IsKeyOf(k, changes) ensures IsKeyOf(k, w) || k == changes[pos].key {
      var i :| 0 <= i < |changes| && changes[i].key == k;
      if i != pos { assert w[if i < pos then i else i - 1] == changes[i]; }
    }
  }

  lemma {:induction false} MovesHandle(lines: seq<string>, live: string, stage: string)
    ensures Handled(lines, Moves(lines, live, stage), [], live) && AllMoves(Moves(lines, live, stage), live, stage)
    ensures Moves(lines, live, stage) == [] <==> AllClear(lines, live)
  {
    hide Clear, LineKey, LineMoves, IsMove, IsKeyOf;
    if lines != [] {
      var head, rest := LineMoves(lines[0], live, stage), Moves(lines[1..], live, stage);
      MovesHandle(lines[1..], live, stage);
      LineMovesMeans(lines[0], live, stage);
      KeysConcat(head, rest);
      forall i | 0 <= i < |lines| && !Clear(lines[i], live)
        ensures LineKey(lines[i]).Some? && IsKeyOf(LineKey(lines[i]).value, head + rest)
      {
        if i > 0 { assert !Clear(lines[1..][i - 1], live); }
      }
      if AllClear(lines, live) { assert forall i :: 0 <= i < |lines[1..]| ==> lines[1..][i] == lines[i + 1]; }
      if AllClear(lines[1..], live) && Clear(lines[0], live) {
        forall i | 0 <= i < |lines| ensures Clear(lines[i], live) {
          if i > 0 { assert Clear(lines[1..][i - 1], live); }
        }
      }
    }
  }

  lemma KeysConcat(a: seq<Change>, b: seq<Change>)
    ensures forall k :: IsKeyOf(k, a) || IsKeyOf(k, b) ==> IsKeyOf(k, a + b)
  {
    forall k | IsKeyOf(k, a) || IsKeyOf(k, b) ensures IsKeyOf(k, a + b) {
      if IsKeyOf(k, a) {
        var i :| 0 <= i < |a| && a[i].key == k;
        assert (a + b)[i].key == k;
      } else {
        var i :| 0 <= i < |b| && b[i].key == k;
        assert (a + b)[|a| + i].key == k;
      }
    }
  }

  lemma LineMovesMeans(raw: string, live: string, stage: string)
    ensures LineMoves(raw, live, stage) == [] <==> Clear(raw, live)
    ensures !Clear(raw, live) ==> LineKey(raw).Some? && IsKeyOf(LineKey(raw).value, LineMoves(raw, live, stage))
    ensures forall i :: 0 <= i < |LineMoves(raw, live, stage)| ==> IsMove(LineMoves(raw, live, stage)[i], live, stage)
  {
    hide Trim, TrimEnd, Unquote;
    if !Clear(raw, live) {
      KeyLineHasKey(raw);
      var p, r := KeyLineParts(raw);
      KeyTrimmed(p);
      var c := LineMoves(raw, live, stage)[0];
      assert PathPrefixed(ParseLine(raw).value, live);
    }
  }

  lemma KeyTrimmed(p: string)
    requires NoChar(p, '=')
    ensures Trim(Trim(p)) == Trim(p) && NoChar(Trim(p), '=')
  {
    var a, b := TrimParts(p);
    TrimSolid(Trim(p));
    NoCharConcat(a + Trim(p), b, '=');
    NoCharConcat(a, Trim(p), '=');
  }

  // ---- the staged text -------------------------------------------------------------------------

  lemma OneLinePart(raw: string, i: nat, j: nat)
    requires OneLine(raw) && i <= j <= |raw|
    ensures OneLine(raw[i..j]) && OneLine(raw[i..])
  {
  }

  lemma OneLineConcat(a: string, b: string)
    ensures OneLine(a + b) <==> OneLine(a) && OneLine(b)
  {
    NoCharConcat(a, b, '\n');
  }

  lemma OneLineTrim(s: string)
    requires OneLine(s)
    ensures OneLine(Trim(s)) && OneLine(TrimStart(s))
  {
    var a, b := TrimParts(s);
    OneLineConcat(a + Trim(s), b);
    OneLineConcat(a, Trim(s));
    var c := TrimStartParts(s);
    OneLineConcat(c, TrimStart(s));
  }

  lemma SwapOneLine(v: string, live: string, stage: string)
    requires OneLine(v) && OneLine(stage) && |live| <= |v|
    ensures OneLine(SwapPrefix(v, live, stage))
  {
    OneLinePart(v, |live|, |v|);
    OneLineConcat(stage, v[|live|..|v|]);
  }

  lemma RetargetOneLine(raw: string, live: string, stage: string)
    requires OneLine(raw) && IsDir(stage)
    ensures OneLine(Retarget(raw, live, stage)) && (raw != "" ==> Retarget(raw, live, stage) != "")
  {
    hide Trim, TrimStart, OneLine, Solid;
    var t := TrimStart(raw);
    var eq := IndexOf(t, '=');
    OneLineTrim(raw);
    if StartsWith(t, '%') && eq < |t| {
      OneLinePart(t, 0, eq);
      OneLinePart(t, eq + 1, |t|);
      OneLineTrim(t[..eq]);
      OneLineTrim(t[eq + 1..]);
      var name, val := Trim(t[..eq]), Trim(t[eq + 1..]);
      if EndsWith(name, '%') && PathPrefixed(val, live) {
        SwapOneLine(val, live, stage);
        EqualsOneLine();
        OneLineConcat(name, " = ");
        OneLineConcat(name + " = ", SwapPrefix(val, live, stage));
      }
    }
  }

  lemma EqualsOneLine()
    ensures OneLine(" = ")
  {
  }

  lemma StagedLines(text: string, lines: seq<string>)
    requires AllOneLine(lines) && |lines| == |Lines(text)|
    requires forall i :: 0 <= i < |lines| && Lines(text)[i] != "" ==> lines[i] != ""
    ensures Lines(WithEnd(lines, text)) == Reread(lines, EndsInNewline(text))
    ensures EndsInNewline(WithEnd(lines, text)) == EndsInNewline(text)
  {
    hide Lines, JoinLines;
    NoLines();
    if EndsInNewline(text) { SomeLines(text); } else if text != "" { LastLine(text); }
    LinesOfJoin(lines, EndsInNewline(text));
    JoinEnds(lines);
  }

  /** The lines after the first pass. */
  lemma FirstPass(text: string, live: string, stage: string)
    requires IsDir(stage)
    ensures var lines := RetargetAll(Lines(text), live, stage);
            && AllOneLine(lines)
            && Lines(WithEnd(lines, text)) == Reread(lines, EndsInNewline(text))
            && EndsInNewline(WithEnd(lines, text)) == EndsInNewline(text)
  {
    hide Lines, Retarget, OneLine;
    LinesClean(text);
    OneLineLines(Lines(text));
    forall i | 0 <= i < |Lines(text)|
      ensures OneLine(Retarget(Lines(text)[i], live, stage))
      ensures Lines(text)[i] != "" ==> Retarget(Lines(text)[i], live, stage) != ""
    {
      RetargetOneLine(Lines(text)[i], live, stage);
    }
    StagedLines(text, RetargetAll(Lines(text), live, stage));
  }

  lemma OneLineLines(lines: seq<string>)
    requires forall l :: l in lines ==> NoChar(l, '\n')
    ensures AllOneLine(lines)
  {
  }

  // ---- lines that read alike ----------------------------------------------------------------------

  /** Line for line the same, but for white space at the end. */
  ghost predicate ReadsAs(a: seq<string>, b: seq<string>) {
    |a| == |b| && forall i :: 0 <= i < |a| ==> TrimEnd(a[i]) == TrimEnd(b[i])
  }

  lemma ParsedAlike(a: string, b: string)
    requires TrimEnd(a) == TrimEnd(b)
    ensures ParseLine(a) == ParseLine(b) && LineKey(a) == LineKey(b) && TrimEnd("#" + a) == TrimEnd("#" + b)
  {
    hide Trim, TrimStart, TrimEnd, IndexOf, Unquote;
    CommentTrims(a);
    CommentTrims(b);
  }

  lemma CommentTrims(a: string)
    ensures TrimEnd("#" + a) == "#" + TrimEnd(a)
  {
    var b := TrimEndParts(a);
    assert "#" + a == ("#" + TrimEnd(a)) + b && !IsSpace('#');
    TrimEndOf("#" + TrimEnd(a), b);
  }

  lemma RereadAlike(lines: seq<string>, end: bool)
    ensures ReadsAs(Reread(lines, end), lines)
  {
    hide StripCr, TrimEnd;
    forall i | 0 <= i < |lines| ensures TrimEnd(Reread(lines, end)[i]) == TrimEnd(lines[i]) { StripTrims(lines[i]); }
  }

  lemma {:induction false} MovesAlike(a: seq<string>, b: seq<string>, live: string, stage: string)
    requires ReadsAs(a, b)
    ensures Moves(a, live, stage) == Moves(b, live, stage)
  {
    hide ParseLine, TrimEnd, PathPrefixed;
    if a != [] {
      ParsedAlike(a[0], b[0]);
      AlikeTail(a, b);
      MovesAlike(a[1..], b[1..], live, stage);
    }
  }

  lemma AlikeTail(a: seq<string>, b: seq<string>)
    requires ReadsAs(a, b) && a != []
    ensures ReadsAs(a[1..], b[1..])
  {
    hide TrimEnd;
  }

  lemma {:induction false} EditAlike(a: seq<string>, b: seq<string>, changes: seq<Change>, applied: seq<string>)
    requires ReadsAs(a, b)
    ensures var e, f := EditLines(a, changes, applied, Plain), EditLines(b, changes, applied, Plain);
            ReadsAs(e.out, f.out) && e.remaining == f.remaining
  {
    hide LineKey, TrimEnd, Rendered;
    if a != [] {
      ParsedAlike(a[0], b[0]);
      AlikeTail(a, b);
      var (line, changes', applied') := EditLine(a[0], changes, applied, Plain);
      EditAlike(a[1..], b[1..], changes', applied');
    }
  }

  lemma AlikeThen(a: seq<string>, b: seq<string>, c: seq<string>)
    requires ReadsAs(a, b) && ReadsAs(b, c)
    ensures ReadsAs(a, c)
  {
    hide TrimEnd;
  }

  lemma AlikeConcat(a: seq<string>, b: seq<string>, c: seq<string>)
    requires ReadsAs(a, b)
    ensures ReadsAs(a + c, b + c)
  {
    hide TrimEnd;
  }

  lemma ClearAlike(a: seq<string>, b: seq<string>, live: string)
    requires ReadsAs(a, b) && AllClear(b, live)
    ensures AllClear(a, live)
  {
    hide ParseLine, TrimEnd;
    forall i | 0 <= i < |a| ensures Clear(a[i], live) { ParsedAlike(a[i], b[i]); }
  }

  lemma {:induction false} MovesClean(lines: seq<string>, live: string, stage: string)
    requires AllOneLine(lines) && IsDir(stage)
    ensures Clean(Moves(lines, live, stage))
  {
    hide OneLine, LineMoves, EditableKey;
    if lines != [] {
      assert forall i :: 0 <= i < |lines[1..]| ==> lines[1..][i] == lines[i + 1];
      MovesClean(lines[1..], live, stage);
      LineMovesClean(lines[0], live, stage);
    }
  }

  lemma LineMovesClean(raw: string, live: string, stage: string)
    requires OneLine(raw) && IsDir(stage)
    ensures Clean(LineMoves(raw, live, stage))
  {
    hide OneLine, Trim, TrimEnd, Unquote, Solid;
    if LineMoves(raw, live, stage) != [] {
      var line := TrimEnd(raw);
      var b := TrimEndParts(raw);
      assert line == raw[..|line|];
      OneLinePart(raw, 0, |line|);
      var eq := IndexOf(line, '=');
      OneLinePart(line, 0, eq);
      OneLinePart(line, eq + 1, |line|);
      OneLineTrim(line[..eq]);
      OneLineTrim(line[eq + 1..]);
      KeyTrimmed(line[..eq]);
      UnquoteOneLine(Trim(line[eq + 1..]));
      SwapOneLine(ParseLine(raw).value, live, stage);
      FirstSolid(line[..eq], line);
      KeyOneLine(Trim(line[..eq]));
    }
  }

  lemma KeyOneLine(k: string)
    requires OneLine(k)
    ensures NoChar(k, '\n')
  {
  }

  lemma UnquoteOneLine(s: string)
    requires OneLine(s)
    ensures OneLine(Unquote(s))
  {
  }

  /** The lines both passes make. */
  function Final(text: string, live: string, stage: string): seq<string> {
    var mid := RetargetAll(Lines(text), live, stage);
    var e := EditLines(mid, Moves(mid, live, stage), [], Plain);
    e.out + RenderedAll(e.remaining, Plain)
  }

  /** The rewritten text reads line by line as those lines. */
  lemma RewrittenAlike(text: string, live: string, stage: string)
    requires IsDir(stage)
    ensures ReadsAs(Lines(Rewritten(text, live, stage)), Final(text, live, stage))
  {
    hide Lines, RetargetAll, AllOneLine, Moves, EditLines, Solid, JoinLines, ReadsAs;
    FirstPass(text, live, stage);
    var mid := RetargetAll(Lines(text), live, stage);
    var s := WithEnd(mid, text);
    var changes := Moves(mid, live, stage);
    RereadAlike(mid, EndsInNewline(text));
    MovesAlike(Lines(s), mid, live, stage);
    if changes == [] {
      NoChanges(mid, Plain);
      assert mid + [] == mid;
    } else {
      MovesClean(mid, live, stage);
      LinesOfApplied(s, changes, Plain);
      RereadAlike(NewLines(s, changes, Plain), EndsLine(s, changes, Plain));
      EditAlike(Lines(s), mid, changes, []);
      var e, f := EditLines(Lines(s), changes, [], Plain), EditLines(mid, changes, [], Plain);
      AlikeConcat(e.out, f.out, RenderedAll(f.remaining, Plain));
      AlikeThen(Lines(Rewritten(text, live, stage)), NewLines(s, changes, Plain), Final(text, live, stage));
    }
  }

  /** No line of the rewritten text names the live directory. */
  lemma RewrittenLines(text: string, live: string, stage: string)
    requires Apart(live, stage)
    ensures AllClear(Lines(Rewritten(text, live, stage)), live)
  {
    hide Lines, RetargetAll, Moves, EditLines, Solid, PathPrefixed, Rewritten, ReadsAs, AllClear;
    var mid := RetargetAll(Lines(text), live, stage);
    var changes := Moves(mid, live, stage);
    MovesHandle(mid, live, stage);
    EditClears(mid, changes, [], live, stage);
    var e := EditLines(mid, changes, [], Plain);
    MovesClear(e.remaining, live, stage);
    ClearConcat(e.out, RenderedAll(e.remaining, Plain), live);
    RewrittenAlike(text, live, stage);
    ClearAlike(Lines(Rewritten(text, live, stage)), Final(text, live, stage), live);
  }

  lemma MovesClear(changes: seq<Change>, live: string, stage: string)
    requires Apart(live, stage) && AllMoves(changes, live, stage)
    ensures AllClear(RenderedAll(changes, Plain), live)
  {
    hide IsMove, Clear, Rendered, Apart;
    forall i | 0 <= i < |changes| ensures Clear(Rendered(changes[i], Plain), live) {
      MoveClear(changes[i], live, stage);
    }
  }

  lemma ClearConcat(a: seq<string>, b: seq<string>, live: string)
    requires AllClear(a, live) && AllClear(b, live)
    ensures AllClear(a + b, live)
  {
    hide Clear;
  }

  // ---- the laws -----------------------------------------------------------------------------------

  /** No variable and no directive of the rewritten text is under the live directory. */
  lemma NothingStaysLive(text: string, live: string, stage: string, i: nat)
    requires Apart(live, stage) && i < |Lines(Rewritten(text, live, stage))|
    ensures var line := ParseLine(Lines(Rewritten(text, live, stage))[i]);
            line.KeyLine? ==> !PathPrefixed(line.value, live)
  {
    hide Lines, Rewritten, ParseLine, PathPrefixed, Apart;
    RewrittenLines(text, live, stage);
    assert Clear(Lines(Rewritten(text, live, stage))[i], live);
  }

  /** A clear line is no variable definition to retarget. */
  lemma ClearKept(raw: string, live: string, stage: string)
    requires Clear(raw, live) && IsDir(live)
    ensures Retarget(raw, live, stage) == raw
  {
    hide Trim, TrimEnd, TrimStart, ParseLine;
    var t := TrimStart(raw);
    var a := TrimStartParts(raw);
    var eq := IndexOf(t, '=');
    if StartsWith(t, '%') && eq < |t| {
      assert t == t[..eq] + "=" + t[eq + 1..];
      assert raw == a + t[..eq] + "=" + t[eq + 1..];
      VariableParses(a, t[..eq], t[eq + 1..]);
      SlashUnquoted(Trim(t[eq + 1..]), live);
    }
  }

  lemma SlashUnquoted(val: string, live: string)
    requires IsDir(live)
    ensures PathPrefixed(val, live) ==> Unquote(val) == val
  {
  }

  lemma VariableParses(a: string, p: string, r: string)
    requires AllSpace(a) && StartsWith(p, '%') && NoChar(p, '=')
    ensures ParseLine(a + p + "=" + r) == KeyLine(Trim(p), Unquote(Trim(r)))
  {
    hide Trim, Unquote, ParseLine, IsSpace;
    EqualsNotSpace();
    SpaceHasNone(a, '=');
    NoCharConcat(a, p, '=');
    PrefixTrim(a, p);
    ParseLineOf(a + p, r);
  }

  lemma EqualsNotSpace()
    ensures !IsSpace('=')
  {
  }

  lemma PrefixTrim(a: string, p: string)
    requires AllSpace(a) && p != "" && p[0] == '%'
    ensures Trim(a + p) == Trim(p) && Trim(p) != "" && Trim(p)[0] == '%'
  {
    var b := TrimEndParts(p);
    TrimStartOf(a, p);
    TrimStartOf("", p);
    assert "" + p == p && p[0] == '%' && !IsSpace('%');
    assert TrimEnd(p) == p[..|TrimEnd(p)|];
  }

  /** Rewriting a rewritten text only drops carriage returns before line ends; so it changes
      nothing when, and only when, there are none. */
  lemma RewriteIdempotent(text: string, live: string, stage: string)
    requires Apart(live, stage)
    ensures var r := Rewritten(text, live, stage);
            && Rewritten(r, live, stage) == Rejoined(r)
            && (Rewritten(r, live, stage) == r <==> NoCrLf(r))
  {
    hide Lines, Retarget, Moves, PathPrefixed, Solid, Clear, JoinLines, NoCrLf, ReadsAs;
    var r := Rewritten(text, live, stage);
    RewrittenLines(text, live, stage);
    var lines := Lines(r);
    forall i | 0 <= i < |lines| ensures Retarget(lines[i], live, stage) == lines[i] {
      ClearKept(lines[i], live, stage);
    }
    assert RetargetAll(lines, live, stage) == lines;
    FirstPass(r, live, stage);
    RereadAlike(lines, EndsInNewline(r));
    MovesAlike(Lines(Rejoined(r)), lines, live, stage);
    MovesHandle(lines, live, stage);
    RejoinedIff(r);
  }

  /** It is enough that no line, and no live value, ends in a carriage return. */
  lemma CleanRewrite(text: string, live: string, stage: string)
    requires Apart(live, stage) && CleanEnds(Lines(text))
             && CleanValues(Moves(RetargetAll(Lines(text), live, stage), live, stage))
    ensures NoCrLf(Rewritten(text, live, stage))
  {
    hide Lines, Retarget, RetargetAll, Moves, Solid, JoinLines, NoCrLf, CleanEnds, CleanValues, EndsInNewline,
         AllOneLine, IsDir, Clean;
    var mid := RetargetAll(Lines(text), live, stage);
    var s := WithEnd(mid, text);
    FirstPass(text, live, stage);
    RetargetCleanEnds(Lines(text), live, stage);
    CleanReread(mid, EndsInNewline(text));
    MovesClean(mid, live, stage);
    RejoinedIff(s);
    if Moves(mid, live, stage) != [] { CleanTextEnough(s, Moves(mid, live, stage), Plain); }
  }

  lemma RetargetCleanEnds(lines: seq<string>, live: string, stage: string)
    requires IsDir(stage) && CleanEnds(lines)
    ensures CleanEnds(RetargetAll(lines, live, stage))
  {
    hide CleanEnd, Retarget;
    forall i | 0 <= i < |lines| ensures CleanEnd(Retarget(lines[i], live, stage)) {
      assert CleanEnd(lines[i]);
      RetargetCleanEnd(lines[i], live, stage);
    }
  }

  lemma RetargetCleanEnd(raw: string, live: string, stage: string)
    requires IsDir(stage) && CleanEnd(raw)
    ensures CleanEnd(Retarget(raw, live, stage))
  {
    hide Trim, TrimStart;
    if Defines(raw, live) {
      var t := TrimStart(raw);
      var val := Trim(t[IndexOf(t, '=') + 1..]);
      var a, b := TrimParts(t[IndexOf(t, '=') + 1..]);
      var r, w := Retarget(raw, live, stage), SwapPrefix(val, live, stage);
      assert r[|r| - 1] == w[|w| - 1] && IsSpace('\r');
      assert w[|w| - 1] == if |val| > |live| then val[|val| - 1] else stage[|stage| - 1];
    }
  }

  // ---- what becomes of each line ------------------------------------------------------------------------

  /** A value under the live directory moves to the stage; everything else reads as before. */
  function Moved(line: ConfLine, live: string, stage: string): ConfLine {
    match line
    case KeyLine(key, value) =>
      if PathPrefixed(value, live) then KeyLine(key, TrimEnd(SwapPrefix(value, live, stage))) else line
    case _ => line
  }

  /** The first pass keeps every line's key and moves the values it rewrites. */
  lemma RetargetMoves(raw: string, live: string, stage: string)
    requires Apart(live, stage)
    ensures LineKey(Retarget(raw, live, stage)) == LineKey(raw)
    ensures Moved(ParseLine(Retarget(raw, live, stage)), live, stage) == Moved(ParseLine(raw), live, stage)
  {
    hide Trim, TrimEnd, TrimStart, ParseLine, LineKey, Unquote, Moved, Solid;
    var t := TrimStart(raw);
    var a := TrimStartParts(raw);
    var eq := IndexOf(t, '=');
    if StartsWith(t, '%') && eq < |t| {
      var name, val := Trim(t[..eq]), Trim(t[eq + 1..]);
      if EndsWith(name, '%') && PathPrefixed(val, live) {
        assert t == t[..eq] + "=" + t[eq + 1..];
        assert raw == a + t[..eq] + "=" + t[eq + 1..];
        VariableMoves(a, t[..eq], t[eq + 1..], live, stage);
      }
    }
  }

  lemma VariableMoves(a: string, p: string, r: string, live: string, stage: string)
    requires Apart(live, stage) && AllSpace(a) && StartsWith(p, '%') && NoChar(p, '=') && PathPrefixed(Trim(r), live)
    ensures var raw, line := a + p + "=" + r, Trim(p) + " = " + SwapPrefix(Trim(r), live, stage);
            && LineKey(raw) == LineKey(line) == Some(Trim(p))
            && Moved(ParseLine(line), live, stage) == Moved(ParseLine(raw), live, stage)
  {
    hide Trim, TrimEnd, ParseLine, LineKey, Unquote, IsSpace, Solid;
    var name, val := Trim(p), Trim(r);
    VariableParses(a, p, r);
    SlashUnquoted(val, live);
    PrefixTrim("", p);
    KeyTrimmed(p);
    var swapped := SwapPrefix(val, live, stage);
    RenderedParses(name, swapped);
    KeyLineHasKey(name + " = " + swapped);
    KeyLineHasKey(a + p + "=" + r);
    SlashTrim(swapped);
    SwappedTrim(val, live, stage);
    SwappedApart(val, live, stage, TrimEnd(swapped));
  }

  // ---- catalog ids -----------------------------------------------------------------------------------

  /** The catalog id a path inside the stage or the live directory refers to. */
  function ToLiveId(path: string, etc: string, live: string): Option<string> {
    if etc <= path && StartsWith(path[|etc|..], '/') then Some("ms:" + path[|etc| + 1..])
    else if live <= path && StartsWith(path[|live|..], '/') then Some("ms:" + path[|live| + 1..])
    else None
  }

  /** A live path and the staged path it becomes have one id; a path has an id exactly when
      it lies in one of the two directories. */
  lemma SameId(path: string, live: string, stage: string)
    requires Apart(live, stage) && PathPrefixed(path, live)
    ensures ToLiveId(SwapPrefix(path, live, stage), stage, live) == ToLiveId(path, stage, live)
    ensures ToLiveId(path, stage, live).Some? <==> path != live
  {
    var moved := SwapPrefix(path, live, stage);
    var rest := path[|live|..];
    assert path == live + rest && moved == stage + rest;
    assert moved[..|stage|] == stage && moved[|stage|..] == rest;
    if stage <= path && StartsWith(path[|stage|..], '/') { NotBoth(path, live, stage); }
    assert rest == "" || moved[|stage| + 1..] == path[|live| + 1..];
    assert rest == "" || rest[0] == '/';
    if live <= moved && StartsWith(moved[|live|..], '/') { assert moved[|live|] == '/'; }
    SwappedApart(path, live, stage, moved);
  }

  lemma NotBoth(path: string, live: string, stage: string)
    requires PathPrefixed(path, live) && PathPrefixed(path, stage)
    ensures PathPrefixed(live, stage) || PathPrefixed(stage, live)
  {
    if |live| <= |stage| {
      assert stage[..|live|] == path[..|live|] == live;
      assert |live| < |stage| ==> stage[|live|] == path[|live|];
    } else {
      assert live[..|stage|] == path[..|stage|] == stage;
      assert live[|stage|] == path[|stage|];
    }
  }
}
