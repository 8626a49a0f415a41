/** What an edit writes, character for character, and where (conffile.rs). */
module EditedLines {
  import opened Options
  import opened Decimal
  import opened Text
  import opened ConfFile
  import opened EditorLaws
  import opened ConfStage

  // ---- the keys without a line ------------------------------------------------------------------

  ghost predicate HasLine(lines: seq<string>, key: string) {
    exists j :: 0 <= j < |lines| && LineKey(lines[j]) == Some(key)
  }

  /** The changes whose key is on no line, in their order. */
  ghost function Absent(lines: seq<string>, a: seq<Change>): seq<Change> {
    if a == [] then [] else (if HasLine(lines, a[0].key) then [] else [a[0]]) + Absent(lines, a[1..])
  }

  lemma {:induction false} AbsentConcat(lines: seq<string>, a: seq<Change>, b: seq<Change>)
    ensures Absent(lines, a + b) == Absent(lines, a) + Absent(lines, b)
  {
    hide HasLine;
    if a == [] {
      assert a + b == b;
    } else {
      assert (a + b)[1..] == a[1..] + b && (a + b)[0] == a[0];
      AbsentConcat(lines, a[1..], b);
    }
  }

  lemma {:induction false} AbsentNone(a: seq<Change>)
    ensures Absent([], a) == a
  {
    if a != [] { AbsentNone(a[1..]); }
  }

  /** A line matters for the changes of its own key only. */
  lemma {:induction false} AbsentSame(lines: seq<string>, more: seq<string>, a: seq<Change>)
    requires forall i :: 0 <= i < |a| ==> (HasLine(lines, a[i].key) <==> HasLine(more, a[i].key))
    ensures Absent(lines, a) == Absent(more, a)
  {
    hide HasLine;
    if a != [] { AbsentSame(lines, more, a[1..]); }
  }

  lemma HasLineHead(lines: seq<string>, key: string)
    requires lines != []
    ensures HasLine(lines, key) <==> LineKey(lines[0]) == Some(key) || HasLine(lines[1..], key)
  {
    hide LineKey;
    if HasLine(lines, key) && LineKey(lines[0]) != Some(key) {
      var j :| 0 <= j < |lines| && LineKey(lines[j]) == Some(key);
      assert lines[1..][j - 1] == lines[j];
    }
    if HasLine(lines[1..], key) {
      var j :| 0 <= j < |lines[1..]| && LineKey(lines[1..][j]) == Some(key);
      assert lines[j + 1] == lines[1..][j];
    }
  }

  lemma AbsentStep(lines: seq<string>, a: seq<Change>)
    requires lines != [] && DistinctKeys(a)
    ensures var pos := if LineKey(lines[0]).Some? then Position(a, LineKey(lines[0]).value) else |a|;
            Absent(lines, a) == Absent(lines[1..], if pos < |a| then Without(a, pos) else a)
  {
    hide LineKey, HasLine, Absent;
    var rest := lines[1..];
    forall k ensures HasLine(lines, k) <==> LineKey(lines[0]) == Some(k) || HasLine(rest, k) { HasLineHead(lines, k); }
    var pos := if LineKey(lines[0]).Some? then Position(a, LineKey(lines[0]).value) else |a|;
    if pos < |a| {
      AbsentSplit(lines, a, pos);
      AbsentConcat(rest, a[..pos], a[pos + 1..]);
      AbsentSame(lines, rest, a[..pos]);
      AbsentSame(lines, rest, a[pos + 1..]);
    } else {
      AbsentSame(lines, rest, a);
    }
  }

  lemma AbsentSplit(lines: seq<string>, a: seq<Change>, pos: nat)
    requires pos < |a| && HasLine(lines, a[pos].key)
    ensures Absent(lines, a) == Absent(lines, a[..pos]) + Absent(lines, a[pos + 1..])
  {
    hide HasLine;
    assert a == a[..pos] + a[pos..] && a[pos..][0] == a[pos] && a[pos..][1..] == a[pos + 1..];
    AbsentConcat(lines, a[..pos], a[pos..]);
  }

  /** What the pass leaves over are the changes without a line. */
  lemma {:induction false} Remaining(lines: seq<string>, a: seq<Change>, applied: seq<string>, style: Style)
    requires DistinctKeys(a)
    ensures EditLines(lines, a, applied, style).remaining == Absent(lines, a)
  {
    hide LineKey, Rendered, Absent;
    if lines == [] {
      AbsentNone(a);
    } else {
      AbsentStep(lines, a);
      var (line, a', applied') := EditLine(lines[0], a, applied, style);
      if LineKey(lines[0]).Some? && Position(a, LineKey(lines[0]).value) < |a| {
        WithoutKeys(a, Position(a, LineKey(lines[0]).value));
      }
      Remaining(lines[1..], a', applied', style);
    }
  }

  /** The lines an edit makes: the text's own, then the changes without a line, in their order; and
      the text ends in a line end exactly when it did or one was appended. */
  lemma AppendedInOrder(text: string, a: seq<Change>, style: Style, k: nat)
    requires Editable(a) && OneLiners(a)
    ensures var after, absent := Lines(Applied(text, a, style)), Absent(Lines(text), a);
            && |after| == |Lines(text)| + |absent|
            && (k < |absent| && CleanEnd(Rendered(absent[k], style)) ==>
                  after[|Lines(text)| + k] == Rendered(absent[k], style))
            && (EndsInNewline(Applied(text, a, style)) <==> EndsInNewline(text) || absent != [])
  {
    hide LineKey, EditableKey, Rendered, Lines, EditLines, Applied, StripCr, Editable;
    EditableClean(a);
    LinesOfApplied(text, a, style);
    KeysDiffer(a);
    Remaining(Lines(text), a, [], style);
  }

  lemma KeysDiffer(a: seq<Change>)
    requires Editable(a)
    ensures DistinctKeys(a)
  {
  }

  // ---- the line of a change ------------------------------------------------------------------------

  lemma PlainLine(c: Change)
    ensures Rendered(c, Plain) == c.key + " = " + c.value
  {
  }

  lemma TomlLine(c: Change)
    ensures Rendered(c, Toml) == c.key + " = " + if IsInteger(c.value) then c.value else "\"" + Escape(c.value) + "\""
  {
    hide IsInteger, Escape;
  }

  /** The only change of its key, found from the key. */
  lemma ChangeAt(a: seq<Change>, i: nat)
    requires DistinctKeys(a) && i < |a|
    ensures IsKeyOf(a[i].key, a) && forall c :: 0 <= c < |a| && a[c].key == a[i].key ==> c == i
  {
  }

  lemma {:induction false} AbsentAt(lines: seq<string>, a: seq<Change>, i: nat) returns (k: nat)
    requires i < |a| && !HasLine(lines, a[i].key)
    ensures k < |Absent(lines, a)| && Absent(lines, a)[k] == a[i] && k == |Absent(lines, a[..i])|
  {
    var front, back := a[..i], a[i + 1..];
    assert a == front + ([a[i]] + back);
    AbsentConcat(lines, front, [a[i]] + back);
    AbsentConcat(lines, [a[i]], back);
    assert [a[i]][1..] == [];
    k := |Absent(lines, front)|;
  }

  lemma {:induction false} FirstLineOf(lines: seq<string>, key: string) returns (j: nat)
    requires HasLine(lines, key)
    ensures j < |lines| && LineKey(lines[j]) == Some(key) && forall i :: 0 <= i < j ==> LineKey(lines[i]) != Some(key)
  {
    hide LineKey;
    if LineKey(lines[0]) == Some(key) {
      j := 0;
    } else {
      HasLineHead(lines, key);
      var k := FirstLineOf(lines[1..], key);
      j := k + 1;
      assert forall i :: 0 < i < |lines| ==> lines[1..][i - 1] == lines[i];
    }
  }

  /** Where the line of a change stands: where the first line of its key stood, else after the text,
      behind the earlier changes without a line. */
  lemma LineOfChange(text: string, a: seq<Change>, style: Style, i: nat) returns (at: nat)
    requires Editable(a) && OneLiners(a) && i < |a| && CleanEnd(a[i].value)
    ensures var lines, after := Lines(text), Lines(Applied(text, a, style));
            && at < |after| && after[at] == Rendered(a[i], style)
            && if HasLine(lines, a[i].key) then
                 at < |lines| && LineKey(lines[at]) == Some(a[i].key) && !HasLine(lines[..at], a[i].key)
               else at == |lines| + |Absent(lines, a[..i])|
  {
    hide LineKey, EditableKey, Rendered, Lines, EditLines, Applied, StripCr, Absent, Editable;
    KeysDiffer(a);
    ChangeAt(a, i);
    RenderedClean(a[i], style);
    if HasLine(Lines(text), a[i].key) {
      at := FirstLineOf(Lines(text), a[i].key);
      EditedText(text, a, style, at);
      assert !Earlier(Lines(text), at, a[i].key);
      StripsNothing(Rendered(a[i], style));
    } else {
      var k := AbsentAt(Lines(text), a, i);
      AppendedInOrder(text, a, style, k);
      at := |Lines(text)| + k;
    }
  }

  lemma StripsNothing(line: string)
    requires CleanEnd(line)
    ensures StripCr(line) == line
  {
  }

  /** Plain style, for every text: the line of a change is its key, ` = ` and its value, character for
      character; it reads as that key and the value without white space and one pair of quotes around it. */
  lemma PlainEdit(text: string, a: seq<Change>, i: nat) returns (at: nat)
    requires Editable(a) && OneLiners(a) && i < |a| && CleanEnd(a[i].value)
    ensures var lines, after := Lines(text), Lines(Applied(text, a, Plain));
            && at < |after| && after[at] == a[i].key + " = " + a[i].value
            && (if HasLine(lines, a[i].key) then
                  at < |lines| && LineKey(lines[at]) == Some(a[i].key) && !HasLine(lines[..at], a[i].key)
                else at == |lines| + |Absent(lines, a[..i])|)
            && (a[i].key != "" ==> ParseLine(after[at]) == KeyLine(a[i].key, Unquote(Trim(a[i].value))))
  {
    hide LineKey, Lines, Applied, Absent, HasLine, ParseLine, Trim, Unquote, EditableKey;
    at := LineOfChange(text, a, Plain, i);
    PlainLine(a[i]);
    assert EditableKey(a[i].key);
    if a[i].key != "" { WrittenParses(a[i].key, a[i].value); }
  }

  lemma WrittenParses(key: string, value: string)
    requires EditableKey(key) && key != ""
    ensures ParseLine(key + " = " + value) == KeyLine(key, Unquote(Trim(value)))
  {
    hide ParseLine, Trim, Unquote;
    SpacedKey(key);
    ParseLineOf(key + " ", " " + value);
    assert key + " = " + value == (key + " ") + "=" + (" " + value);
    SpaceBefore(value);
  }

  lemma SpaceBefore(value: string)
    ensures Trim(" " + value) == Trim(value)
  {
    assert (" " + value)[1..] == value && IsSpace(' ');
  }

  /** TOML style: a value that reads as a 64-bit integer stands bare, any other in double quotes, its
      own double quotes escaped. */
  lemma TomlEdit(text: string, a: seq<Change>, i: nat) returns (at: nat)
    requires Editable(a) && OneLiners(a) && i < |a| && CleanEnd(a[i].value)
    ensures var after, v := Lines(Applied(text, a, Toml)), a[i].value;
            at < |after| && after[at] == a[i].key + " = " + if IsInteger(v) then v else "\"" + Escape(v) + "\""
  {
    hide Lines, Applied, Rendered, IsInteger, Escape;
    at := LineOfChange(text, a, Toml, i);
    TomlLine(a[i]);
  }

  lemma IntegerMeans(v: string)
    ensures IsInteger(v) <==>
              || (v != "" && AllDigits(v) && Value(v) <= 9223372036854775807)
              || (|v| > 1 && v[0] == '+' && AllDigits(v[1..]) && Value(v[1..]) <= 9223372036854775807)
              || (|v| > 1 && v[0] == '-' && AllDigits(v[1..]) && Value(v[1..]) <= 9223372036854775808)
  {
    hide Value;
  }

  lemma {:induction false} EscapeMeans(v: string, w: string)
    ensures NoChar(v, '"') ==> Escape(v) == v
    ensures Escape(v + "\"" + w) == Escape(v) + "\\\"" + Escape(w)
    decreases |v|
  {
    var s := v + "\"" + w;
    if v == "" {
      assert s[0] == '"' && s[1..] == w && "" + "\\\"" + Escape(w) == "\\\"" + Escape(w);
    } else {
      assert s[0] == v[0] && s[1..] == v[1..] + "\"" + w;
      EscapeMeans(v[1..], w);
      var head := if v[0] == '"' then "\\\"" else [v[0]];
      assert head + (Escape(v[1..]) + "\\\"" + Escape(w)) == (head + Escape(v[1..])) + "\\\"" + Escape(w);
    }
  }

  // ---- lines as they are parsed ------------------------------------------------------------------------

  lemma UnquoteMeans(v: string)
    ensures Unquote("\"" + v + "\"") == v && Unquote("'" + v + "'") == v
    ensures (|v| < 2 || v[0] != v[|v| - 1] || (v[0] != '"' && v[0] != '\'')) ==> Unquote(v) == v
  {
  }

  /** Lines that are no entries. */
  lemma OtherLines(raw: string)
    ensures Trim(raw) == "" ==> ParseLine(raw) == Blank
    ensures Trim(raw) != "" && Trim(raw)[0] == '#' ==> ParseLine(raw) == Comment(Trim(raw))
    ensures Trim(raw) != "" && Trim(raw)[0] != '#' && NoChar(raw, '=') ==> ParseLine(raw) == Other(TrimEnd(raw))
    ensures ParseLine(raw).KeyLine? ==> ParseLine(raw).key != "" && NoChar(ParseLine(raw).key, '=')
  {
    hide Unquote, Trim, TrimEnd, TrimStart;
    TrimBothWays(raw);
    var b := TrimEndParts(raw);
    assert raw[..|TrimEnd(raw)|] == TrimEnd(raw);
    var eq := IndexOf(TrimEnd(raw), '=');
    KeyTrimmed(TrimEnd(raw)[..eq]);
  }

  lemma TrimBothWays(s: string)
    ensures TrimStart(TrimEnd(s)) == Trim(s)
  {
    var a, b := TrimParts(s);
    var m := Trim(s);
    if m == "" {
      assert s == "" + (a + b);
      TrimEndOf("", a + b);
    } else {
      assert s == (a + m) + b;
      TrimEndOf(a + m, b);
      TrimStartOf(a, m);
    }
  }
}
