/** The lens law of the configuration text: reading an edited text gives the
    old entries with the edited keys replaced, whatever the text was. */
module EditThenRead {
  import opened Options
  import opened Text
  import opened ConfFile
  import opened EditorLaws
  import opened ConfigReader
  import opened Lens

  /** A change of an identifier key to a one-line value. */
  predicate Writable(c: Change) {
    PlainKey(c.key) && NoChar(c.value, '\n')
  }

  /** What the reader makes of the line a change is written as. */
  function ReadValue(c: Change): string {
    match ReadLine(Rendered(c, Toml)) case Some(e) => e.value case None => ""
  }

  ghost predicate EachWritable(a: seq<Change>) {
    forall i :: 0 <= i < |a| ==> Writable(a[i])
  }

  ghost predicate AllWritable(a: seq<Change>) {
    DistinctKeys(a) && EachWritable(a)
  }

  ghost predicate NoNewlines(lines: seq<string>) {
    forall i :: 0 <= i < |lines| ==> NoChar(lines[i], '\n')
  }

  ghost function Others(entries: seq<Entry>, a: seq<Change>): seq<Entry> {
    if entries == [] then []
    else (if IsKeyOf(entries[0].key, a) then [] else [entries[0]]) + Others(entries[1..], a)
  }

  function ValuesOf(entries: seq<Entry>, key: string): seq<string> {
    if entries == [] then []
    else (if entries[0].key == key then [entries[0].value] else []) + ValuesOf(entries[1..], key)
  }

  function NewValue(a: seq<Change>, key: string): seq<string> {
    var i := Position(a, key);
    if i < |a| then [ReadValue(a[i])] else []
  }

  // ---- reading joined lines -----------------------------------------------------------

  lemma TrimCr(m: string)
    ensures Trim(m + "\r") == Trim(m)
  {
    var a, b := TrimParts(m);
    TrimOf(a, Trim(m), b + "\r");
    assert a + Trim(m) + (b + "\r") == m + "\r";
  }

  lemma SameTrimmed(s: string, t: string)
    requires Trim(s) == Trim(t)
    ensures ReadStripped(s) == ReadStripped(t)
  {
  }

  lemma CutIgnoresCr(m: string)
    ensures ReadLine(m + "\r") == ReadLine(m)
  {
    hide ReadStripped, Trim;
    var l := m + "\r";
    CutConcat(m, "\r", OUTSIDE);
    var n := CutAt(m, OUTSIDE);
    if n < |m| {
      assert l[..n] == m[..n];
    } else {
      assert CutAt("\r", Steps(OUTSIDE, m)) == 1;
      assert l[..|l|] == l && m[..|m|] == m;
      TrimCr(m);
      SameTrimmed(l, m);
    }
  }

  lemma ReadStripCr(l: string)
    ensures ReadLine(StripCr(l)) == ReadLine(l)
  {
    hide ReadLine;
    if l != "" && l[|l| - 1] == '\r' {
      assert l == l[..|l| - 1] + "\r";
      CutIgnoresCr(l[..|l| - 1]);
    }
  }

  /** Joining lines and cutting the text again reads the same. */
  lemma {:induction false} ReadJoined(lines: seq<string>, tail: string)
    requires NoNewlines(lines)
    requires tail == "" || (tail == "\n" && lines != [])
    ensures ReadLines(Lines(JoinLines(lines) + tail)) == ReadLines(lines)
  {
    hide ReadLine, StripCr;
    if |lines| == 1 {
      ReadStripCr(lines[0]);
      if tail == "\n" {
        assert lines[0] + "\n" == lines[0] + "\n" + "";
        LinesStep(lines[0], "");
        OneMoreLine(StripCr(lines[0]), []);
        OneMoreLine(lines[0], []);
        assert lines == [lines[0]] + [];
      } else {
        assert lines[0] + "" == lines[0];
        ReadSingle(lines[0]);
      }
    } else if |lines| > 1 {
      ReadJoined(lines[1..], tail);
      var rest := JoinLines(lines[1..]) + tail;
      assert JoinLines(lines) + tail == lines[0] + "\n" + rest;
      LinesStep(lines[0], rest);
      ReadStripCr(lines[0]);
      OneMoreLine(StripCr(lines[0]), Lines(rest));
      OneMoreLine(lines[0], lines[1..]);
      assert lines == [lines[0]] + lines[1..];
    }
  }

  lemma OneMoreLine(l: string, lines: seq<string>)
    ensures ReadLines([l] + lines) == (match ReadLine(l) case Some(e) => [e] case None => []) + ReadLines(lines)
  {
    assert ([l] + lines)[1..] == lines;
  }

  lemma ReadSingle(l: string)
    requires NoChar(l, '\n')
    ensures ReadLines(Lines(l)) == ReadLines([l])
  {
    assert IndexOf(l, '\n') == |l|;
    if l == "" { assert ReadLine("") == None; }
  }

  lemma {:induction false} ReadConcat(x: seq<string>, y: seq<string>)
    ensures ReadLines(x + y) == ReadLines(x) + ReadLines(y)
  {
    hide ReadLine;
    if x == [] {
      assert x + y == y;
    } else {
      assert (x + y)[1..] == x[1..] + y;
      ReadConcat(x[1..], y);
    }
  }

  lemma {:induction false} OthersConcat(x: seq<Entry>, y: seq<Entry>, a: seq<Change>)
    ensures Others(x + y, a) == Others(x, a) + Others(y, a)
  {
    if x == [] {
      assert x + y == y;
    } else {
      assert (x + y)[1..] == x[1..] + y;
      OthersConcat(x[1..], y, a);
    }
  }

  lemma {:induction false} ValuesConcat(x: seq<Entry>, y: seq<Entry>, key: string)
    ensures ValuesOf(x + y, key) == ValuesOf(x, key) + ValuesOf(y, key)
  {
    if x == [] {
      assert x + y == y;
    } else {
      assert (x + y)[1..] == x[1..] + y;
      ValuesConcat(x[1..], y, key);
    }
  }

  // ---- one line ---------------------------------------------------------------------

  function Seen(line: string): seq<Entry> {
    match ReadLine(line) case Some(e) => [e] case None => []
  }

  lemma CommentUnseen(raw: string)
    ensures Seen("#" + raw) == []
  {
    assert CutAt("#" + raw, OUTSIDE) == 0;
    assert ("#" + raw)[..0] == "";
  }

  lemma ReadRenderedChange(c: Change)
    requires Writable(c)
    ensures Seen(Rendered(c, Toml)) == [Entry(c.key, ReadValue(c))]
    ensures ReadValue(c) == c.value <==> Readable(c.value)
  {
    hide ReadLine, Rendered, PlainKey, Readable;
    ReadBack(c);
  }

  /** Between them `a` and `applied` hold the keys of `all`, each once. */
  ghost predicate Partition(all: seq<Change>, a: seq<Change>, applied: seq<string>) {
    && AllWritable(all) && AllWritable(a)
    && (forall k :: IsKeyOf(k, all) <==> IsKeyOf(k, a) || k in applied)
    && (forall k :: k in applied ==> !IsKeyOf(k, a))
  }

  /** The reader's view of one edited line: other keys as before, and of the
      changed keys exactly the ones just written. */
  lemma SeenEdit(raw: string, all: seq<Change>, a: seq<Change>, applied: seq<string>, key: string)
    requires Partition(all, a, applied)
    ensures var (line, a', applied') := EditLine(raw, a, applied, Toml);
            && Partition(all, a', applied')
            && Others(Seen(line), all) == Others(Seen(raw), all)
            && (IsKeyOf(key, all) ==> ValuesOf(Seen(line), key) + NewValue(a', key) == NewValue(a, key))
  {
    hide ReadLine, LineKey, Rendered, PlainKey, Readable, IsKeyOf;
    SeenKey(raw, all);
    match LineKey(raw)
    case None => ValuesOther(Seen(raw), all, key);
    case Some(k) =>
      PositionFinds(a, k);
      var pos := Position(a, k);
      if pos < |a| {
        SeenReplaced(raw, all, a, applied, pos, key);
      } else if k in applied {
        CommentUnseen(raw);
      } else {
        ValuesOther(Seen(raw), all, key);
      }
  }

  /** What the reader sees on a line is of a changed key exactly when the editor says so. */
  lemma SeenKey(raw: string, all: seq<Change>)
    requires AllWritable(all)
    ensures LineKey(raw).Some? && IsKeyOf(LineKey(raw).value, all) ==>
            |Seen(raw)| == 1 && Seen(raw)[0].key == LineKey(raw).value
    ensures LineKey(raw).None? || !IsKeyOf(LineKey(raw).value, all) ==> forall e :: e in Seen(raw) ==>
            !IsKeyOf(e.key, all)
  {
    hide ReadLine, LineKey, PlainKey, Readable;
    if LineKey(raw).Some? && IsKeyOf(LineKey(raw).value, all) {
      var i :| 0 <= i < |all| && all[i].key == LineKey(raw).value;
      assert Writable(all[i]);
      KeysAgree(raw, all[i].key);
    } else if ReadLine(raw).Some? && IsKeyOf(ReadLine(raw).value.key, all) {
      var i :| 0 <= i < |all| && all[i].key == ReadLine(raw).value.key;
      assert Writable(all[i]);
      KeysAgree(raw, all[i].key);
    }
  }

  lemma ValuesOther(entries: seq<Entry>, all: seq<Change>, key: string)
    requires |entries| <= 1 && IsKeyOf(key, all) ==> forall e :: e in entries ==> !IsKeyOf(e.key, all)
    ensures |entries| <= 1 && IsKeyOf(key, all) ==> ValuesOf(entries, key) == []
  {
    hide IsKeyOf;
    if |entries| == 1 { assert entries[0] in entries && entries[1..] == []; }
  }

  lemma SeenReplaced(raw: string, all: seq<Change>, a: seq<Change>, applied: seq<string>, pos: nat, key: string)
    requires Partition(all, a, applied) && pos < |a|
    requires |Seen(raw)| == 1 && Seen(raw)[0].key == a[pos].key
    ensures Partition(all, Without(a, pos), applied + [a[pos].key])
    ensures Others(Seen(Rendered(a[pos], Toml)), all) == Others(Seen(raw), all) == []
    ensures ValuesOf(Seen(Rendered(a[pos], Toml)), key) + NewValue(Without(a, pos), key) == NewValue(a, key)
  {
    hide Seen, Rendered, Writable, ReadValue, NewValue, IsKeyOf, Others, ValuesOf, DistinctKeys;
    var entry := Entry(a[pos].key, ReadValue(a[pos]));
    WithoutKeys(a, pos);
    WithoutWritable(a, pos);
    KeyAt(a, pos);
    assert Writable(a[pos]);
    ReadRenderedChange(a[pos]);
    OneEntry(entry, all, key);
    OneEntry(Seen(raw)[0], all, key);
    assert Seen(raw) == [Seen(raw)[0]];
    NewValueWithout(a, pos, key);
    assert [] + NewValue(Without(a, pos), key) == NewValue(Without(a, pos), key);
  }

  lemma KeyAt(a: seq<Change>, pos: nat)
    requires pos < |a|
    ensures IsKeyOf(a[pos].key, a)
  {
  }

  lemma WithoutWritable(a: seq<Change>, pos: nat)
    requires AllWritable(a) && pos < |a|
    ensures AllWritable(Without(a, pos))
  {
    hide Writable;
    WithoutKeys(a, pos);
  }

  lemma NewValueWithout(a: seq<Change>, pos: nat, key: string)
    requires DistinctKeys(a) && pos < |a|
    ensures NewValue(a, key) == if key == a[pos].key then [ReadValue(a[pos])] else NewValue(Without(a, pos), key)
    ensures key == a[pos].key ==> NewValue(Without(a, pos), key) == []
  {
    hide ReadValue;
    var w := Without(a, pos);
    var i, j := Position(a, key), Position(w, key);
    if j < |w| { assert w[j] == a[if j < pos then j else j + 1]; }
    if i < |a| && i != pos { assert a[i] == w[if i < pos then i else i - 1]; }
  }

  // ---- all lines ------------------------------------------------------------------------

  lemma {:induction false} EditRead(lines: seq<string>, all: seq<Change>, a: seq<Change>, applied: seq<string>,
                                    key: string)
    requires Partition(all, a, applied)
    ensures var e := EditLines(lines, a, applied, Toml);
            && Partition(all, e.remaining, e.applied)
            && Others(ReadLines(e.out), all) == Others(ReadLines(lines), all)
            && (IsKeyOf(key, all) ==> ValuesOf(ReadLines(e.out), key) + NewValue(e.remaining, key) == NewValue(a, key))
  {
    hide Seen, LineKey, Rendered, IsKeyOf, Partition, EditLine, NewValue, Others, ValuesOf, ReadLines;
    if lines == [] {
      NothingRead(key);
      assert [] + NewValue(a, key) == NewValue(a, key);
    } else {
      SeenEdit(lines[0], all, a, applied, key);
      var (line, a', applied') := EditLine(lines[0], a, applied, Toml);
      EditRead(lines[1..], all, a', applied', key);
      var e' := EditLines(lines[1..], a', applied', Toml);
      assert lines == [lines[0]] + lines[1..];
      ReadHead(lines[0], lines[1..]);
      ReadHead(line, e'.out);
      OthersConcat(Seen(line), ReadLines(e'.out), all);
      OthersConcat(Seen(lines[0]), ReadLines(lines[1..]), all);
      ValuesConcat(Seen(line), ReadLines(e'.out), key);
      Associative(ValuesOf(Seen(line), key), ValuesOf(ReadLines(e'.out), key), NewValue(e'.remaining, key));
    }
  }

  lemma {:induction false} RenderedOthers(all: seq<Change>, a: seq<Change>)
    requires EachWritable(a) && forall k :: IsKeyOf(k, a) ==> IsKeyOf(k, all)
    ensures Others(ReadLines(RenderedAll(a, Toml)), all) == []
  {
    hide Seen, ReadLine, Rendered, IsKeyOf, Writable, ReadValue;
    if a != [] {
      ReadRenderedChange(a[0]);
      KeyAt(a, 0);
      KeysOfTail(a);
      RenderedOthers(all, a[1..]);
      ReadHead(Rendered(a[0], Toml), RenderedAll(a[1..], Toml));
      OthersConcat(Seen(Rendered(a[0], Toml)), ReadLines(RenderedAll(a[1..], Toml)), all);
      OneEntry(Entry(a[0].key, ReadValue(a[0])), all, "");
    }
  }

  lemma {:induction false} RenderedValues(a: seq<Change>, key: string)
    requires AllWritable(a)
    ensures ValuesOf(ReadLines(RenderedAll(a, Toml)), key) == NewValue(a, key)
  {
    hide Seen, ReadLine, Rendered, IsKeyOf, Writable, ReadValue, NewValue, ReadLines, ValuesOf, DistinctKeys;
    if a == [] {
      NothingRead(key);
    } else {
      var entry := Entry(a[0].key, ReadValue(a[0]));
      assert Writable(a[0]);
      ReadRenderedChange(a[0]);
      assert a[1..] == Without(a, 0);
      WithoutWritable(a, 0);
      RenderedValues(a[1..], key);
      ReadHead(Rendered(a[0], Toml), RenderedAll(a[1..], Toml));
      assert RenderedAll(a, Toml) == [Rendered(a[0], Toml)] + RenderedAll(a[1..], Toml);
      ValuesConcat([entry], ReadLines(RenderedAll(a[1..], Toml)), key);
      OneEntry(entry, [], key);
      NewValueWithout(a, 0, key);
    }
  }

  lemma NothingRead(key: string)
    ensures ValuesOf(ReadLines([]), key) == [] == NewValue([], key)
  {
  }

  lemma ReadHead(line: string, rest: seq<string>)
    ensures ReadLines([line] + rest) == Seen(line) + ReadLines(rest)
  {
    hide ReadLine;
    assert ([line] + rest)[1..] == rest;
  }

  lemma OneEntry(entry: Entry, all: seq<Change>, key: string)
    ensures IsKeyOf(entry.key, all) ==> Others([entry], all) == []
    ensures ValuesOf([entry], key) == if entry.key == key then [entry.value] else []
  {
    hide IsKeyOf;
    assert [entry][1..] == [];
  }

  lemma KeysOfTail(a: seq<Change>)
    requires a != []
    ensures forall k :: IsKeyOf(k, a[1..]) ==> IsKeyOf(k, a)
  {
    forall k | IsKeyOf(k, a[1..]) ensures IsKeyOf(k, a) {
      var i :| 0 <= i < |a[1..]| && a[1..][i].key == k;
      assert a[i + 1].key == k;
    }
  }

  // ---- the whole text ---------------------------------------------------------------------

  lemma {:induction false} EditNoNewline(lines: seq<string>, a: seq<Change>, applied: seq<string>)
    requires NoNewlines(lines) && EachWritable(a)
    ensures var e := EditLines(lines, a, applied, Toml);
            NoNewlines(e.out) && EachWritable(e.remaining)
  {
    hide LineKey, Rendered, Writable;
    if lines != [] {
      var (line, a', applied') := EditLine(lines[0], a, applied, Toml);
      NoCharConcat("#", lines[0], '\n');
      if LineKey(lines[0]).Some? {
        var pos := Position(a, LineKey(lines[0]).value);
        if pos < |a| { RenderedNoNewline(a[pos]); }
      }
      EditNoNewline(lines[1..], a', applied');
    }
  }

  lemma RenderedNoNewline(c: Change)
    requires Writable(c)
    ensures NoChar(Rendered(c, Toml), '\n')
  {
    hide Readable, IsInteger, PlainText, Trim;
    EscapeNoNewline(c.value);
    NoCharConcat("\"", Escape(c.value), '\n');
    NoCharConcat("\"" + Escape(c.value), "\"", '\n');
    NoCharConcat(c.key, " = ", '\n');
    NoCharConcat(c.key + " = ", RenderValue(c.value, Toml), '\n');
  }

  lemma {:induction false} EscapeNoNewline(v: string)
    requires NoChar(v, '\n')
    ensures NoChar(Escape(v), '\n')
  {
    if v != "" {
      EscapeNoNewline(v[1..]);
      NoCharConcat(if v[0] == '"' then "\\\"" else [v[0]], Escape(v[1..]), '\n');
    }
  }

  /** The entries of an edited text are those of the lines the editor made. */
  lemma ReadApplied(text: string, a: seq<Change>)
    requires AllWritable(a)
    ensures ReadLines(Lines(Applied(text, a, Toml))) == ReadLines(NewLines(text, a, Toml))
  {
    hide ReadLine, LineKey, Rendered, Writable, Lines, EditLines, JoinLines, EndsInNewline;
    var e := EditLines(Lines(text), a, [], Toml);
    LinesClean(text);
    assert NoNewlines(Lines(text));
    EditNoNewline(Lines(text), a, []);
    forall i | 0 <= i < |e.remaining| ensures NoChar(RenderedAll(e.remaining, Toml)[i], '\n') {
      RenderedNoNewline(e.remaining[i]);
    }
    var all := NewLines(text, a, Toml);
    assert NoNewlines(all);
    if e.remaining == [] && EndsInNewline(text) {
      NewlineLines(text);
      ReadJoined(all, "\n");
    } else if e.remaining == [] {
      ReadJoined(all, "");
    } else {
      ReadJoined(all, "\n");
    }
  }

  lemma NewlineLines(text: string)
    requires EndsInNewline(text)
    ensures Lines(text) != []
  {
  }

  /** Reading an edited text: each changed key exactly once, with the value written exactly
      when that value is readable; every other entry as it was, in its order. */
  lemma EditThenRead(text: string, a: seq<Change>)
    requires AllWritable(a)
    ensures var before, after := ReadLines(Lines(text)), ReadLines(Lines(Applied(text, a, Toml)));
            && Others(after, a) == Others(before, a)
            && forall i :: 0 <= i < |a| ==>
                 |ValuesOf(after, a[i].key)| == 1
                     && (ValuesOf(after, a[i].key) == [a[i].value] <==> Readable(a[i].value))
  {
    hide ReadLine, LineKey, Rendered, Writable, Lines, EditLines, Applied, Partition, NewValue, IsKeyOf;
    ReadApplied(text, a);
    var e := EditLines(Lines(text), a, [], Toml);
    var lines, more := e.out, RenderedAll(e.remaining, Toml);
    AllOfThem(a);
    ReadConcat(lines, more);
    OthersConcat(ReadLines(lines), ReadLines(more), a);
    EditRead(Lines(text), a, a, [], "");
    PartitionRest(a, e.remaining, e.applied);
    RenderedOthers(a, e.remaining);
    assert Others(ReadLines(lines), a) + [] == Others(ReadLines(lines), a);
    forall i | 0 <= i < |a| ensures var values := ValuesOf(ReadLines(lines + more), a[i].key);
              |values| == 1 && (values == [a[i].value] <==> Readable(a[i].value)) {
      EditRead(Lines(text), a, a, [], a[i].key);
      KeyAt(a, i);
      RenderedValues(e.remaining, a[i].key);
      ValuesConcat(ReadLines(lines), ReadLines(more), a[i].key);
      NewValueAt(a, i);
      ReadRenderedChange(a[i]);
    }
  }

  lemma AllOfThem(a: seq<Change>)
    requires AllWritable(a)
    ensures Partition(a, a, [])
  {
  }

  lemma PartitionRest(all: seq<Change>, a: seq<Change>, applied: seq<string>)
    requires Partition(all, a, applied)
    ensures AllWritable(a) && forall k :: IsKeyOf(k, a) ==> IsKeyOf(k, all)
  {
  }

  lemma NewValueAt(a: seq<Change>, i: nat)
    requires DistinctKeys(a) && i < |a|
    ensures NewValue(a, a[i].key) == [ReadValue(a[i])]
  {
    assert Position(a, a[i].key) == i;
  }

  // ---- the last entry wins -----------------------------------------------------------------

  lemma {:induction false} LastWinsIsLast(entries: seq<Entry>, key: string)
    ensures key in LastWins(entries) <==> ValuesOf(entries, key) != []
    ensures key in LastWins(entries) ==> LastWins(entries)[key] == ValuesOf(entries, key)[|ValuesOf(entries, key)| - 1]
    decreases |entries|
  {
    if entries != [] {
      var front, last := entries[..|entries| - 1], entries[|entries| - 1];
      LastWinsIsLast(front, key);
      assert entries == front + [last];
      ValuesConcat(front, [last], key);
      assert [last][1..] == [];
    }
  }

  lemma {:induction false} OthersHoldValues(entries: seq<Entry>, a: seq<Change>, key: string)
    requires !IsKeyOf(key, a)
    ensures ValuesOf(Others(entries, a), key) == ValuesOf(entries, key)
  {
    hide IsKeyOf;
    if entries != [] {
      var rest := Others(entries[1..], a);
      OthersHoldValues(entries[1..], a, key);
      ValuesConcat([entries[0]], rest, key);
      assert [entries[0]][1..] == [] && [] + rest == rest;
      assert [] + ValuesOf(entries[1..], key) == ValuesOf(entries[1..], key);
    }
  }

  /** Loading an edited configuration sees the edit, exactly of the readable values, and of
      every other key what it saw before. */
  lemma EditThenLoad(text: string, a: seq<Change>, key: string)
    requires AllWritable(a)
    ensures var before, after := LastWins(ReadLines(Lines(text))), LastWins(ReadLines(Lines(Applied(text, a, Toml))));
            && (forall i :: 0 <= i < |a| && a[i].key == key ==>
                  key in after && (after[key] == a[i].value <==> Readable(a[i].value)))
            && (!IsKeyOf(key, a) ==> (key in after <==> key in before) && (key in after ==> after[key] == before[key]))
  {
    hide ReadLine, Rendered, Writable, Lines, Applied, NewValue, Others, LastWins, ReadLines;
    var before, after := ReadLines(Lines(text)), ReadLines(Lines(Applied(text, a, Toml)));
    EditThenRead(text, a);
    LastWinsIsLast(before, key);
    LastWinsIsLast(after, key);
    if !IsKeyOf(key, a) {
      OthersHoldValues(before, a, key);
      OthersHoldValues(after, a, key);
    }
  }
}
