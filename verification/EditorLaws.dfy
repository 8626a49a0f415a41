/** Laws of the in-place editor: what an edit leaves, and that a second edit of
    the same keys wins as if it were the only one. */
module EditorLaws {
  import opened Options
  import opened Text
  import opened ConfFile

  /** A key as the editor can find it again. */
  predicate EditableKey(k: string) {
    Trim(k) == k && NoChar(k, '=') && NoChar(k, '\n') && (k != "" ==> k[0] != '#')
  }

  predicate OneLine(v: string) {
    NoChar(v, '\n')
  }

  /** No carriage return at the end. */
  predicate CleanEnd(s: string) {
    StripCr(s) == s
  }

  ghost predicate CleanEnds(lines: seq<string>) {
    forall i :: 0 <= i < |lines| ==> CleanEnd(lines[i])
  }

  ghost predicate CleanValues(changes: seq<Change>) {
    forall i :: 0 <= i < |changes| ==> CleanEnd(changes[i].value)
  }

  ghost predicate Editable(changes: seq<Change>) {
    && DistinctKeys(changes)
    && forall i :: 0 <= i < |changes| ==> EditableKey(changes[i].key)
  }

  ghost predicate OneLiners(changes: seq<Change>) {
    forall i :: 0 <= i < |changes| ==> OneLine(changes[i].value)
  }

  ghost predicate Clean(changes: seq<Change>) {
    forall i :: 0 <= i < |changes| ==> EditableKey(changes[i].key) && OneLine(changes[i].value)
  }

  ghost predicate AllOneLine(lines: seq<string>) {
    forall i :: 0 <= i < |lines| ==> OneLine(lines[i])
  }

  ghost predicate SameKeys(a: seq<Change>, b: seq<Change>) {
    |a| == |b| && forall i :: 0 <= i < |a| ==> a[i].key == b[i].key
  }

  // ---- the key of a line -----------------------------------------------------------

  /** The key of a line with a first `=`. */
  lemma LineKeyOf(p: string, r: string)
    requires NoChar(p, '=')
    ensures LineKey(p + "=" + r) == if Trim(p) != "" && Trim(p)[0] == '#' then None else Some(Trim(p))
  {
    var raw := p + "=" + r;
    var b := TrimEndParts(raw);
    var line := TrimEnd(raw);
    assert raw[|p|] == '=' && raw[..|p|] == p && raw[..|line|] == line;
    assert |line| > |p| && line[|p|] == '=' && line[..|p|] == p;
    assert line == p + "=" + line[|p| + 1..];
    IndexOfFirst(p, '=', line[|p| + 1..]);
    FirstSolid(p, line);
  }

  /** Trimmed text starts with its first character that is not white space. */
  lemma FirstSolid(p: string, line: string)
    requires |line| > |p| && line[|p|] == '=' && line[..|p|] == p
    ensures TrimStart(line) != "" && TrimStart(line)[0] == if Trim(p) == "" then '=' else Trim(p)[0]
  {
    var a := TrimStartParts(line);
    var t := TrimStart(line);
    assert t[0] == line[|a|];
    if |a| < |p| {
      assert p == a + p[|a|..] && p[|a|..][0] == t[0];
      TrimStartOf(a, p[|a|..]);
      var c := TrimEndParts(p[|a|..]);
    } else {
      assert p == a + "";
      TrimStartOf(a, "");
    }
  }

  lemma RenderedKey(c: Change, style: Style)
    requires EditableKey(c.key)
    ensures LineKey(Rendered(c, style)) == Some(c.key)
  {
    hide Trim, LineKey, RenderValue, Solid, IsSpace;
    var p, v := c.key + " ", RenderValue(c.value, style);
    assert c.key + " = " + v == p + "=" + (" " + v);
    SpacedKey(c.key);
    LineKeyOf(p, " " + v);
  }

  lemma CommentKey(raw: string)
    ensures LineKey("#" + raw) == None
  {
    var line := "#" + raw;
    var b := TrimEndParts(line);
    assert line[0] == '#' && line[..|TrimEnd(line)|] == TrimEnd(line);
    if TrimEnd(line) == "" { assert b == line; }
  }

  // ---- a second edit -----------------------------------------------------------------

  lemma SameKeysPosition(a: seq<Change>, b: seq<Change>, key: string)
    requires SameKeys(a, b)
    ensures Position(a, key) == Position(b, key)
    ensures Position(a, key) < |a| ==> SameKeys(Without(a, Position(a, key)), Without(b, Position(b, key)))
  {
    var i := Position(a, key);
    if i < |a| { WithoutSameKeys(a, b, i); }
  }

  lemma WithoutSameKeys(a: seq<Change>, b: seq<Change>, i: nat)
    requires SameKeys(a, b) && i < |a|
    ensures SameKeys(Without(a, i), Without(b, i))
  {
  }

  /** The second pass over the edited lines finds each key where the first one put it. */
  lemma {:induction false} EditTwice(lines: seq<string>, a: seq<Change>, b: seq<Change>, applied: seq<string>,
                                     style: Style)
    requires SameKeys(a, b)
    requires forall i :: 0 <= i < |a| ==> EditableKey(a[i].key)
    ensures var e, f := EditLines(lines, a, applied, style), EditLines(lines, b, applied, style);
            && EditLines(e.out, b, applied, style) == f
            && SameKeys(e.remaining, f.remaining) && e.applied == f.applied
            && forall i :: 0 <= i < |e.remaining| ==> EditableKey(e.remaining[i].key)
  {
    hide LineKey, EditableKey, Rendered;
    if lines != [] {
      EditTwiceLine(lines[0], a, b, applied, style);
      var (line, a', applied') := EditLine(lines[0], a, applied, style);
      var (line2, b', applied2) := EditLine(lines[0], b, applied, style);
      EditTwice(lines[1..], a', b', applied', style);
      assert EditLines(lines, a, applied, style).out[1..] == EditLines(lines[1..], a', applied', style).out;
    }
  }

  lemma EditTwiceLine(raw: string, a: seq<Change>, b: seq<Change>, applied: seq<string>, style: Style)
    requires SameKeys(a, b)
    requires forall i :: 0 <= i < |a| ==> EditableKey(a[i].key)
    ensures var (line, a', applied') := EditLine(raw, a, applied, style);
            && EditLine(line, b, applied, style) == EditLine(raw, b, applied, style)
            && SameKeys(a', EditLine(raw, b, applied, style).1) && EditLine(raw, b, applied, style).2 == applied'
            && forall i :: 0 <= i < |a'| ==> EditableKey(a'[i].key)
  {
    hide LineKey, EditableKey, Rendered;
    match LineKey(raw)
    case None =>
    case Some(key) =>
      SameKeysPosition(a, b, key);
      var pos := Position(a, key);
      if pos < |a| {
        RenderedKey(a[pos], style);
      } else if key in applied {
        CommentKey(raw);
      }
  }

  /** Lines that carry the keys to change, in order, are all replaced. */
  lemma {:induction false} EditRendered(a: seq<Change>, b: seq<Change>, applied: seq<string>, style: Style)
    requires SameKeys(a, b)
    requires forall i :: 0 <= i < |a| ==> EditableKey(a[i].key)
    ensures var e := EditLines(RenderedAll(a, style), b, applied, style);
            e.out == RenderedAll(b, style) && e.remaining == []
  {
    hide LineKey, EditableKey, Rendered;
    if a != [] {
      RenderedKey(a[0], style);
      assert Position(b, a[0].key) == 0;
      assert Without(b, 0) == b[1..];
      EditRendered(a[1..], b[1..], applied + [a[0].key], style);
    }
  }

  lemma {:induction false} EditConcat(x: seq<string>, y: seq<string>, a: seq<Change>, applied: seq<string>,
                                      style: Style)
    ensures var e := EditLines(x, a, applied, style);
            var f := EditLines(y, e.remaining, e.applied, style);
            EditLines(x + y, a, applied, style) == After(e.out, f)
  {
    hide LineKey, Rendered;
    if x == [] {
      assert x + y == y;
      AfterNothing(EditLines(y, a, applied, style));
    } else {
      var (line, a', applied') := EditLine(x[0], a, applied, style);
      assert (x + y)[1..] == x[1..] + y;
      EditConcat(x[1..], y, a', applied', style);
      var e := EditLines(x[1..], a', applied', style);
      var f := EditLines(y, e.remaining, e.applied, style);
      assert [line] + (e.out + f.out) == ([line] + e.out) + f.out;
    }
  }

  lemma NewLinesTwice(text: string, a: seq<Change>, b: seq<Change>, style: Style)
    requires SameKeys(a, b) && Editable(a)
    ensures var e := EditLines(NewLines(text, a, style), b, [], style);
            e.out == NewLines(text, b, style) && e.remaining == []
    ensures EditLines(Lines(text), a, [], style).remaining == []
            <==> EditLines(Lines(text), b, [], style).remaining == []
  {
    hide LineKey, EditableKey, Rendered, Lines, EditLines;
    var e, f := EditLines(Lines(text), a, [], style), EditLines(Lines(text), b, [], style);
    EditTwice(Lines(text), a, b, [], style);
    EditConcat(e.out, RenderedAll(e.remaining, style), b, [], style);
    EditRendered(e.remaining, f.remaining, f.applied, style);
  }

  // ---- the text that comes out --------------------------------------------------------

  lemma RenderedOneLine(c: Change, style: Style)
    requires EditableKey(c.key) && OneLine(c.value)
    ensures OneLine(Rendered(c, style)) && Rendered(c, style) != ""
  {
    EscapeOneLine(c.value);
  }

  lemma {:induction false} EscapeOneLine(v: string)
    requires OneLine(v)
    ensures OneLine(Escape(v))
  {
    if v != "" { EscapeOneLine(v[1..]); }
  }

  lemma {:induction false} EditOneLine(lines: seq<string>, a: seq<Change>, applied: seq<string>, style: Style)
    requires AllOneLine(lines)
    requires Clean(a)
    ensures var e := EditLines(lines, a, applied, style);
            && AllOneLine(e.out)
            && (forall i :: 0 <= i < |lines| && lines[i] != "" ==> e.out[i] != "")
            && Clean(e.remaining)
  {
    hide LineKey, EditableKey, Rendered;
    if lines != [] {
      var (line, a', applied') := EditLine(lines[0], a, applied, style);
      if LineKey(lines[0]).Some? {
        var pos := Position(a, LineKey(lines[0]).value);
        if pos < |a| { RenderedOneLine(a[pos], style); }
      }
      EditOneLine(lines[1..], a', applied', style);
    }
  }

  lemma {:induction false} RenderedAllOneLine(a: seq<Change>, style: Style)
    requires Clean(a)
    ensures AllOneLine(RenderedAll(a, style))
    ensures a != [] ==> RenderedAll(a, style)[|a| - 1] != ""
  {
    hide EditableKey, Rendered;
    forall i | 0 <= i < |a| ensures OneLine(Rendered(a[i], style)) && Rendered(a[i], style) != "" {
      RenderedOneLine(a[i], style);
    }
  }

  predicate EndsLine(text: string, a: seq<Change>, style: Style) {
    EndsInNewline(text) || EditLines(Lines(text), a, [], style).remaining != []
  }

  /** The lines of the edited text are the edited lines, as cut again. */
  lemma LinesOfApplied(text: string, a: seq<Change>, style: Style)
    requires Clean(a)
    ensures Lines(Applied(text, a, style)) == Reread(NewLines(text, a, style), EndsLine(text, a, style))
    ensures AllOneLine(NewLines(text, a, style))
    ensures EndsInNewline(Applied(text, a, style)) == EndsLine(text, a, style)
  {
    hide LineKey, EditableKey, Rendered, Lines, EditLines;
    var lines := Lines(text);
    var e := EditLines(lines, a, [], style);
    LinesClean(text);
    NoLines();
    assert AllOneLine(lines);
    EditOneLine(lines, a, [], style);
    RenderedAllOneLine(e.remaining, style);
    var all, end := NewLines(text, a, style), EndsLine(text, a, style);
    if !end {
      assert all == e.out;
      if text != "" { LastLine(text); }
    } else if e.remaining == [] {
      SomeLines(text);
    }
    assert AllOneLine(all);
    LinesOfJoin(all, end);
    JoinEnds(all);
  }

  lemma EditableClean(a: seq<Change>)
    requires Editable(a) && OneLiners(a)
    ensures Clean(a)
  {
    hide EditableKey;
  }

  lemma SomeLines(text: string)
    requires text != ""
    ensures Lines(text) != []
  {
  }

  lemma {:induction false} JoinEnds(lines: seq<string>)
    requires AllOneLine(lines)
    ensures (lines != [] && lines[|lines| - 1] == "") || !EndsInNewline(JoinLines(lines))
  {
    if |lines| == 1 {
      assert OneLine(lines[0]);
    } else if |lines| > 1 {
      JoinEnds(lines[1..]);
      JoinLong(lines[1..]);
    }
  }

  lemma JoinLong(lines: seq<string>)
    requires lines != []
    ensures JoinLines(lines) == "" ==> lines == [""]
  {
  }

  // ---- what the edited text holds -------------------------------------------------------

  function CountKey(lines: seq<string>, key: string): nat {
    if lines == [] then 0 else (if LineKey(lines[0]) == Some(key) then 1 else 0) + CountKey(lines[1..], key)
  }

  lemma {:induction false} CountConcat(x: seq<string>, y: seq<string>, key: string)
    ensures CountKey(x + y, key) == CountKey(x, key) + CountKey(y, key)
  {
    hide LineKey;
    if x == [] {
      assert x + y == y;
    } else {
      assert (x + y)[1..] == x[1..] + y;
      CountConcat(x[1..], y, key);
    }
  }

  /** A changed key is on one line or still to be appended. */
  lemma {:induction false} EditCount(lines: seq<string>, a: seq<Change>, applied: seq<string>, style: Style,
                                     key: string)
    requires Editable(a) && (IsKeyOf(key, a) || key in applied)
    requires forall k :: k in applied ==> !IsKeyOf(k, a)
    ensures var e := EditLines(lines, a, applied, style);
            && CountKey(e.out, key) + (if IsKeyOf(key, e.remaining) then 1 else 0) == (if IsKeyOf(key, a) then 1 else 0)
            && Editable(e.remaining)
  {
    hide LineKey, EditableKey, Rendered, IsKeyOf;
    if lines != [] {
      var (line, a', applied') := EditLine(lines[0], a, applied, style);
      EditLineCount(lines[0], a, applied, style, key);
      EditCount(lines[1..], a', applied', style, key);
    }
  }

  lemma EditLineCount(raw: string, a: seq<Change>, applied: seq<string>, style: Style, key: string)
    requires Editable(a) && (IsKeyOf(key, a) || key in applied)
    requires forall k :: k in applied ==> !IsKeyOf(k, a)
    ensures var (line, a', applied') := EditLine(raw, a, applied, style);
            && Editable(a') && (forall k :: k in applied' ==> !IsKeyOf(k, a')) && (IsKeyOf(key, a') || key in applied')
            && (if LineKey(line) == Some(key) then 1 else 0) + (if IsKeyOf(key, a') then 1 else 0)
               == (if IsKeyOf(key, a) then 1 else 0)
  {
    hide LineKey, EditableKey, Rendered, IsKeyOf;
    match LineKey(raw)
    case None =>
    case Some(k) =>
      PositionFinds(a, k);
      var pos := Position(a, k);
      if pos < |a| {
        WithoutKeys(a, pos);
        RenderedKey(a[pos], style);
      } else if k in applied {
        CommentKey(raw);
      }
  }

  lemma {:induction false} RenderedCount(a: seq<Change>, style: Style, key: string)
    requires Editable(a)
    ensures CountKey(RenderedAll(a, style), key) == if IsKeyOf(key, a) then 1 else 0
  {
    hide LineKey, EditableKey, Rendered, IsKeyOf;
    if a == [] {
      NoKeyOf(key);
    } else {
      RenderedKey(a[0], style);
      assert a[1..] == Without(a, 0);
      WithoutKeys(a, 0);
      KeyOfHead(a);
      RenderedCount(a[1..], style, key);
    }
  }

  lemma NoKeyOf(key: string)
    ensures !IsKeyOf(key, [])
  {
  }

  lemma KeyOfHead(a: seq<Change>)
    requires a != []
    ensures IsKeyOf(a[0].key, a)
  {
  }

  /** Dropping a carriage return at the end does not change what a line is read as. */
  lemma StripTrims(raw: string)
    ensures TrimEnd(StripCr(raw)) == TrimEnd(raw)
  {
    assert IsSpace('\r');
  }

  lemma StripKey(raw: string)
    ensures LineKey(StripCr(raw)) == LineKey(raw)
  {
    StripTrims(raw);
  }

  lemma {:induction false} CountReread(lines: seq<string>, end: bool, key: string)
    ensures CountKey(Reread(lines, end), key) == CountKey(lines, key)
  {
    hide LineKey, StripCr;
    if lines != [] {
      StripKey(lines[0]);
      assert Reread(lines, end)[1..] == Reread(lines[1..], end);
      CountReread(lines[1..], end, key);
    }
  }

  /** Afterwards each changed key has exactly one live line. */
  lemma OneLiveLine(text: string, a: seq<Change>, style: Style, key: string)
    requires Editable(a) && OneLiners(a) && IsKeyOf(key, a)
    ensures CountKey(Lines(Applied(text, a, style)), key) == 1
  {
    hide LineKey, EditableKey, Rendered, Lines, EditLines, IsKeyOf, Applied, Editable;
    EditableClean(a);
    LinesOfApplied(text, a, style);
    CountReread(NewLines(text, a, style), EndsLine(text, a, style), key);
    var e := EditLines(Lines(text), a, [], style);
    EditCount(Lines(text), a, [], style, key);
    CountConcat(e.out, RenderedAll(e.remaining, style), key);
    RenderedCount(e.remaining, style, key);
  }

  /** Line by line: the edited text starts with the old lines, each kept, changed
      or commented out as its key asks; only a carriage return before a line end is dropped. */
  lemma EditedText(text: string, a: seq<Change>, style: Style, i: nat)
    requires Editable(a) && OneLiners(a) && i < |Lines(text)|
    ensures var after := Lines(Applied(text, a, style));
            && i < |after|
            && var line := EditLines(Lines(text), a, [], style).out[i];
               && LineMeans(Lines(text), i, a, [], style, line)
               && after[i] == if i < |after| - 1 || EndsLine(text, a, style) then StripCr(line) else line
  {
    hide LineKey, EditableKey, Rendered, Lines, EditLines, IsKeyOf, Applied, LineMeans, Earlier, StripCr;
    EditableClean(a);
    LinesOfApplied(text, a, style);
    EditMeans(Lines(text), a, [], style, i);
  }

  // ---- what is not edited ------------------------------------------------------------------

  /** No carriage return stands directly before a line end. */
  predicate NoCrLf(text: string) {
    forall i :: 0 <= i < |text| - 1 ==> text[i] != '\r' || text[i + 1] != '\n'
  }

  /** The lines put back together, with the last line end as it was. */
  function Rejoined(text: string): string {
    JoinLines(Lines(text)) + (if EndsInNewline(text) then "\n" else "")
  }

  lemma {:induction false} NoChanges(lines: seq<string>, style: Style)
    ensures EditLines(lines, [], [], style) == Edited(lines, [], [])
  {
    hide LineKey;
    if lines != [] { NoChanges(lines[1..], style); }
  }

  lemma RejoinedStep(text: string, i: nat)
    requires i < |text| && i == IndexOf(text, '\n')
    ensures Rejoined(text) == StripCr(text[..i]) + "\n" + Rejoined(text[i + 1..])
  {
    hide Lines, JoinLines, StripCr, EndsInNewline;
    var rest := text[i + 1..];
    FirstOfLines(text, i);
    EndsAfter(text, i);
    var lines, tail := Lines(rest), if EndsInNewline(text) then "\n" else "";
    if rest == "" {
      NoLines();
      JoinOne(StripCr(text[..i]));
      assert [StripCr(text[..i])] + [] == [StripCr(text[..i])];
    } else {
      SomeLines(rest);
      JoinMore(StripCr(text[..i]), lines, tail);
    }
  }

  lemma FirstOfLines(text: string, i: nat)
    requires i < |text| && i == IndexOf(text, '\n')
    ensures Lines(text) == [StripCr(text[..i])] + Lines(text[i + 1..])
  {
    hide StripCr;
  }

  lemma EndsAfter(text: string, i: nat)
    requires i < |text| && text[i] == '\n'
    ensures EndsInNewline(text) == (text[i + 1..] == "" || EndsInNewline(text[i + 1..]))
    ensures !EndsInNewline("")
  {
  }

  lemma CrLfSplit(text: string, i: nat)
    requires i < |text| && i == IndexOf(text, '\n')
    ensures NoCrLf(text) <==> StripCr(text[..i]) == text[..i] && NoCrLf(text[i + 1..])
  {
    var rest := text[i + 1..];
    assert forall k :: 0 <= k < |rest| ==> rest[k] == text[i + 1 + k];
    if NoCrLf(text) && i > 0 { assert text[i - 1] != '\r'; }
    if StripCr(text[..i]) == text[..i] && NoCrLf(rest) {
      forall k | 0 <= k < |text| - 1 ensures text[k] != '\r' || text[k + 1] != '\n' {
        if k > i { assert rest[k - i - 1] == text[k] && rest[k - i] == text[k + 1]; }
        if k + 1 == i { assert text[..i][i - 1] == text[k]; }
      }
    }
  }

  lemma {:induction false} RejoinedIff(text: string)
    ensures |Rejoined(text)| <= |text| && (Rejoined(text) == text <==> NoCrLf(text))
    decreases |text|
  {
    hide Lines, JoinLines, StripCr, NoCrLf, EndsInNewline;
    var i := IndexOf(text, '\n');
    if i < |text| {
      RejoinedIff(text[i + 1..]);
      RejoinedStep(text, i);
      CrLfSplit(text, i);
      StripShorter(text[..i]);
      SameParts(StripCr(text[..i]), Rejoined(text[i + 1..]), text, i);
    } else {
      OneLineText(text);
    }
  }

  lemma StripShorter(l: string)
    ensures |StripCr(l)| <= |l|
  {
  }

  lemma SameParts(a: string, b: string, text: string, i: nat)
    requires i < |text| && text[i] == '\n' && |a| <= i && |b| <= |text[i + 1..]|
    ensures a + "\n" + b == text <==> a == text[..i] && b == text[i + 1..]
  {
    assert text == text[..i] + "\n" + text[i + 1..];
    if a + "\n" + b == text {
      assert |a| == i;
      assert (a + "\n" + b)[..i] == a && (a + "\n" + b)[i + 1..] == b;
    }
  }

  lemma OneLineText(text: string)
    requires IndexOf(text, '\n') == |text|
    ensures Rejoined(text) == text && NoCrLf(text)
  {
    assert text != "" ==> text[|text| - 1] != '\n';
  }

  /** An edit of nothing gives the text back exactly when no line ends in CR LF. */
  lemma UntouchedIff(text: string, style: Style)
    ensures Applied(text, [], style) == text <==> NoCrLf(text)
  {
    hide Lines, JoinLines, NoCrLf, EditLines;
    NoChanges(Lines(text), style);
    assert Lines(text) + [] == Lines(text);
    RejoinedIff(text);
  }

  // ---- a second edit of a text ----------------------------------------------------------------

  /** The edit of lines cut again is the edit of the lines, cut again. */
  lemma {:induction false} EditReread(lines: seq<string>, end: bool, b: seq<Change>, applied: seq<string>, style: Style)
    requires Clean(b) && CleanValues(b)
    ensures var e, f := EditLines(Reread(lines, end), b, applied, style), EditLines(lines, b, applied, style);
            e.out == Reread(f.out, end) && e.remaining == f.remaining
  {
    hide LineKey, StripCr, EditLine, Clean, CleanValues;
    if lines != [] {
      var first := Reread(lines, end)[0];
      assert Reread(lines, end)[1..] == Reread(lines[1..], end);
      EditStripped(lines[0], b, applied, style);
      var (line, b', applied') := EditLine(lines[0], b, applied, style);
      EditReread(lines[1..], end, b', applied', style);
      var f := EditLines(lines, b, applied, style);
      assert Reread(f.out, end) == [if |lines| > 1 || end then StripCr(line) else line] + Reread(f.out[1..], end);
    }
  }

  lemma EditStripped(raw: string, b: seq<Change>, applied: seq<string>, style: Style)
    requires Clean(b) && CleanValues(b)
    ensures var (line, b', applied') := EditLine(raw, b, applied, style);
            && EditLine(StripCr(raw), b, applied, style) == (StripCr(line), b', applied')
            && Clean(b') && CleanValues(b')
  {
    hide LineKey, EditableKey, Rendered, StripCr, OneLine;
    StripKey(raw);
    StripComment(raw);
    if LineKey(raw).Some? {
      var pos := Position(b, LineKey(raw).value);
      if pos < |b| { RenderedClean(b[pos], style); }
    }
  }

  lemma StripComment(raw: string)
    ensures StripCr("#" + raw) == "#" + StripCr(raw)
  {
  }

  /** A rendered line ends as its value does, or in a quote, a digit or a space. */
  lemma RenderedClean(c: Change, style: Style)
    requires CleanEnd(c.value)
    ensures CleanEnd(Rendered(c, style))
  {
    hide IsInteger;
    var v, r := RenderValue(c.value, style), Rendered(c, style);
    if v == "" {
      assert r[|r| - 1] == ' ';
    } else {
      assert r[|r| - 1] == v[|v| - 1];
    }
  }

  /** A second edit of the same keys gives what it would have given alone, but for carriage
      returns before line ends; so it gives exactly that when, and only when, that has none. */
  lemma SecondEditWins(text: string, a: seq<Change>, b: seq<Change>, style: Style)
    requires Editable(a) && OneLiners(a) && SameKeys(a, b) && OneLiners(b) && CleanValues(b)
    ensures Applied(Applied(text, a, style), b, style) == Rejoined(Applied(text, b, style))
    ensures Applied(Applied(text, a, style), b, style) == Applied(text, b, style) <==> NoCrLf(Applied(text, b, style))
  {
    hide EditableKey, Rendered, Lines, EditLines, Editable, JoinLines, NoCrLf, Clean, CleanValues;
    EditableClean(a);
    SameKeysClean(a, b);
    LinesOfApplied(text, a, style);
    LinesOfApplied(text, b, style);
    NewLinesTwice(text, a, b, style);
    EditReread(NewLines(text, a, style), EndsLine(text, a, style), b, [], style);
    assert RenderedAll([], style) == [];
    var twice := Reread(NewLines(text, b, style), EndsLine(text, b, style));
    assert twice + [] == twice;
    RejoinedIff(Applied(text, b, style));
  }

  lemma SameKeysClean(a: seq<Change>, b: seq<Change>)
    requires Editable(a) && SameKeys(a, b) && OneLiners(b)
    ensures Clean(b)
  {
    hide EditableKey, OneLine;
  }

  /** It is enough that no line of the text ends in a carriage return. */
  lemma CleanTextEnough(text: string, b: seq<Change>, style: Style)
    requires Clean(b) && CleanValues(b) && CleanEnds(Lines(text))
    ensures NoCrLf(Applied(text, b, style))
  {
    hide Lines, EditLines, JoinLines, NoCrLf, Clean, CleanValues, CleanEnd, EndsInNewline, Rendered;
    LinesOfApplied(text, b, style);
    var e := EditLines(Lines(text), b, [], style);
    EditCleanEnds(Lines(text), b, [], style);
    RenderedCleanEnds(e.remaining, style);
    CleanReread(NewLines(text, b, style), EndsLine(text, b, style));
    RejoinedIff(Applied(text, b, style));
  }

  lemma CleanReread(lines: seq<string>, end: bool)
    requires CleanEnds(lines)
    ensures Reread(lines, end) == lines
  {
    hide StripCr;
  }

  lemma RenderedCleanEnds(b: seq<Change>, style: Style)
    requires CleanValues(b)
    ensures CleanEnds(RenderedAll(b, style))
  {
    hide Rendered, CleanEnd;
    forall i | 0 <= i < |b| ensures CleanEnd(Rendered(b[i], style)) { RenderedClean(b[i], style); }
  }

  lemma {:induction false} EditCleanEnds(lines: seq<string>, b: seq<Change>, applied: seq<string>, style: Style)
    requires CleanEnds(lines) && Clean(b) && CleanValues(b)
    ensures var e := EditLines(lines, b, applied, style);
            CleanEnds(e.out) && Clean(e.remaining) && CleanValues(e.remaining)
  {
    hide EditLine, Clean, CleanValues, StripCr;
    if lines != [] {
      EditStripped(lines[0], b, applied, style);
      var (line, b', applied') := EditLine(lines[0], b, applied, style);
      assert CleanEnd(lines[0]);
      EditCleanEnds(lines[1..], b', applied', style);
    }
  }
}
