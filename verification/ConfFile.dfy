/** The in-place editor of `key = value` files (conffile.rs). */
module ConfFile {
  import opened Options
  import opened Decimal
  import opened Finding
  import opened Text

  datatype ConfLine = Blank | Comment(text: string) | KeyLine(key: string, value: string) | Other(text: string)
  datatype Style = Plain | Toml
  datatype Change = Change(key: string, value: string)

  const I64_MAX := 0x7fff_ffff_ffff_ffff

  // ---- reading ----------------------------------------------------------------

  function Unquote(s: string): string {
    if |s| >= 2 && ((s[0] == '"' && s[|s| - 1] == '"') || (s[0] == '\'' && s[|s| - 1] == '\'')) then s[1..|s| - 1]
        else s
  }

  function ParseLine(raw: string): ConfLine {
    var line := TrimEnd(raw);
    var t := TrimStart(line);
    if t == "" then Blank
    else if t[0] == '#' then Comment(t)
    else
      var eq := IndexOf(line, '=');
      if eq == |line| || Trim(line[..eq]) == "" then Other(line)
      else KeyLine(Trim(line[..eq]), Unquote(Trim(line[eq + 1..])))
  }

  // ---- writing ----------------------------------------------------------------

  predicate IsInteger(v: string) {
    ParseSigned(v, I64_MAX).Some?
  }

  /** `replace('"', "\\\"")` */
  function Escape(v: string): string {
    if v == "" then "" else (if v[0] == '"' then "\\\"" else [v[0]]) + Escape(v[1..])
  }

  function RenderValue(v: string, style: Style): string {
    match style
    case Plain => v
    case Toml => if IsInteger(v) then v else "\"" + Escape(v) + "\""
  }

  function Rendered(c: Change, style: Style): string {
    c.key + " = " + RenderValue(c.value, style)
  }

  function RenderedAll(changes: seq<Change>, style: Style): (lines: seq<string>)
    ensures |lines| == |changes| && forall i :: 0 <= i < |changes| ==> lines[i] == Rendered(changes[i], style)
  {
    if changes == [] then [] else [Rendered(changes[0], style)] + RenderedAll(changes[1..], style)
  }

  /** The key the editor sees on a live line. */
  function LineKey(raw: string): Option<string> {
    var line := TrimEnd(raw);
    var t := TrimStart(line);
    var eq := IndexOf(line, '=');
    if t == "" || t[0] == '#' || eq == |line| then None else Some(Trim(line[..eq]))
  }

  /** Index of the first change of `key`, or the length. */
  function Position(changes: seq<Change>, key: string): (i: nat)
    ensures i <= |changes| && (i < |changes| ==> changes[i].key == key)
    ensures forall j :: 0 <= j < i ==> changes[j].key != key
  {
    IndexWhere(changes, (c: Change) => c.key == key)
  }

  function Without(changes: seq<Change>, i: nat): seq<Change>
    requires i < |changes|
  {
    changes[..i] + changes[i + 1..]
  }

  datatype Edited = Edited(out: seq<string>, remaining: seq<Change>, applied: seq<string>)

  /** The editor's pass over the lines, with what is left to change and what was changed. */
  function EditLines(lines: seq<string>, remaining: seq<Change>, applied: seq<string>, style: Style): (e: Edited)
    ensures |e.out| == |lines|
  {
    if lines == [] then Edited([], remaining, applied)
    else
      var (line, remaining', applied') := EditLine(lines[0], remaining, applied, style);
      var e := EditLines(lines[1..], remaining', applied', style);
      e.(out := [line] + e.out)
  }

  function EditLine(raw: string, remaining: seq<Change>, applied: seq<string>, style: Style)
    : (string, seq<Change>, seq<string>)
  {
    match LineKey(raw)
    case None => (raw, remaining, applied)
    case Some(key) =>
      var pos := Position(remaining, key);
      if pos < |remaining| then (Rendered(remaining[pos], style), Without(remaining, pos), applied + [key])
      else if key in applied then ("#" + raw, remaining, applied)
      else (raw, remaining, applied)
  }

  function NewLines(text: string, changes: seq<Change>, style: Style): seq<string> {
    var e := EditLines(Lines(text), changes, [], style);
    e.out + RenderedAll(e.remaining, style)
  }

  function Applied(text: string, changes: seq<Change>, style: Style): string {
    JoinLines(NewLines(text, changes, style))
    + (if EndsInNewline(text) || EditLines(Lines(text), changes, [], style).remaining != [] then "\n" else "")
  }

  /** The edit of a text whose first lines became `out`. */
  function After(out: seq<string>, e: Edited): Edited {
    e.(out := out + e.out)
  }

  /** The loop over the lines. */
  method EditPass(lines: seq<string>, changes: seq<Change>, style: Style)
    returns (out: seq<string>, remaining: seq<Change>)
    ensures var e := EditLines(lines, changes, [], style); out == e.out && remaining == e.remaining
  {
    hide Trim, TrimStart, TrimEnd, Rendered, EditLines, After;
    remaining := changes;
    var appliedKeys: seq<string> := [];
    out := [];
    AfterNothing(EditLines(lines, changes, [], style));
    assert lines[0..] == lines;
    for i := 0 to |lines|
      invariant EditLines(lines, changes, [], style) == After(out, EditLines(lines[i..], remaining, appliedKeys, style))
    {
      var raw := lines[i];
      var line := TrimEnd(raw);
      var t := TrimStart(line);
      var replaced := false;
      EditStep(lines, i, remaining, appliedKeys, style, out);
      assert lines[i + 1..] == lines[i..][1..];
      if t != "" && t[0] != '#' {
        var eq := IndexOf(line, '=');
        if eq < |line| {
          var key := Trim(line[..eq]);
          var pos := Position(remaining, key);
          if pos < |remaining| {
            out := out + [Rendered(remaining[pos], style)];
            remaining := Without(remaining, pos);
            appliedKeys := appliedKeys + [key];
            replaced := true;
          } else if key in appliedKeys {
            out := out + ["#" + raw]; // a duplicate would win: disable
            replaced := true;
          }
        }
      }
      if !replaced {
        out := out + [raw];
      }
    }
    EditNothing(out, lines[|lines|..], remaining, appliedKeys, style);
  }

  method Apply(text: string, changes: seq<Change>, style: Style) returns (s: string, applied: nat)
    ensures s == Applied(text, changes, style) && applied == |changes|
  {
    hide EditLines, JoinLines, Lines, Rendered;
    var out, remaining := EditPass(Lines(text), changes, style);
    ghost var edited := out;
    for i := 0 to |remaining|
      invariant out == edited + RenderedAll(remaining, style)[..i]
    {
      out := out + [Rendered(remaining[i], style)];
    }
    assert RenderedAll(remaining, style)[..|remaining|] == RenderedAll(remaining, style);
    assert JoinLines(out) + "" == JoinLines(out);
    applied := |changes|;
    s := JoinLines(out);
    if EndsInNewline(text) || remaining != [] {
      s := s + "\n";
    }
  }

  lemma EditStep(lines: seq<string>, i: nat, remaining: seq<Change>, applied: seq<string>, style: Style,
                 out: seq<string>)
    requires i < |lines|
    ensures var (line, remaining', applied') := EditLine(lines[i], remaining, applied, style);
            After(out, EditLines(lines[i..], remaining, applied, style)) ==
            After(out + [line], EditLines(lines[i..][1..], remaining', applied', style))
  {
    var (line, remaining', applied') := EditLine(lines[i], remaining, applied, style);
    var e' := EditLines(lines[i..][1..], remaining', applied', style);
    assert out + ([line] + e'.out) == (out + [line]) + e'.out;
  }

  lemma EditNothing(out: seq<string>, lines: seq<string>, remaining: seq<Change>, applied: seq<string>, style: Style)
    requires lines == []
    ensures After(out, EditLines(lines, remaining, applied, style)) == Edited(out, remaining, applied)
  {
    assert out + [] == out;
  }

  lemma AfterNothing(e: Edited)
    ensures After([], e) == e
  {
    assert [] + e.out == e.out;
  }

  // ---- what an edit means --------------------------------------------------------

  ghost predicate DistinctKeys(changes: seq<Change>) {
    forall i, j :: 0 <= i < j < |changes| ==> changes[i].key != changes[j].key
  }

  ghost predicate IsKeyOf(key: string, changes: seq<Change>) {
    exists i :: 0 <= i < |changes| && changes[i].key == key
  }

  /** Some line before `i` has this key. */
  ghost predicate Earlier(lines: seq<string>, i: nat, key: string)
    requires i <= |lines|
  {
    exists j :: 0 <= j < i && LineKey(lines[j]) == Some(key)
  }

  /** What becomes of line `i`, said line by line: the first line of a changed key
      carries the new value, its later lines are comments, every other line is kept. */
  ghost predicate LineMeans(lines: seq<string>, i: nat, changes: seq<Change>, applied: seq<string>, style: Style,
                            line: string)
    requires i < |lines|
  {
    match LineKey(lines[i])
    case None => line == lines[i]
    case Some(key) =>
      if IsKeyOf(key, changes) && !Earlier(lines, i, key) then
        exists c :: 0 <= c < |changes| && changes[c].key == key && line == Rendered(changes[c], style)
      else if IsKeyOf(key, changes) || key in applied then line == "#" + lines[i]
      else line == lines[i]
  }

  lemma WithoutKeys(changes: seq<Change>, pos: nat)
    requires DistinctKeys(changes) && pos < |changes|
    ensures DistinctKeys(Without(changes, pos))
    ensures forall k :: IsKeyOf(k, Without(changes, pos)) <==> IsKeyOf(k, changes) && k != changes[pos].key
  {
    var w := Without(changes, pos);
    forall k ensures IsKeyOf(k, w) <==> IsKeyOf(k, changes) && k != changes[pos].key {
      if IsKeyOf(k, w) {
        var i :| 0 <= i < |w| && w[i].key == k;
        assert w[i] == changes[if i < pos then i else i + 1];
      }
      if IsKeyOf(k, changes) && k != changes[pos].key {
        var i :| 0 <= i < |changes| && changes[i].key == k;
        assert changes[i] == w[if i < pos then i else i - 1];
      }
    }
  }

  lemma PositionFinds(changes: seq<Change>, key: string)
    ensures Position(changes, key) < |changes| <==> IsKeyOf(key, changes)
  {
  }

  lemma {:induction false} EditMeans(lines: seq<string>, changes: seq<Change>, applied: seq<string>, style: Style,
                                     i: nat)
    requires DistinctKeys(changes) && i < |lines|
    requires forall k :: k in applied ==> !IsKeyOf(k, changes)
    ensures LineMeans(lines, i, changes, applied, style, EditLines(lines, changes, applied, style).out[i])
  {
    var (line, changes', applied') := EditLine(lines[0], changes, applied, style);
    var key0 := LineKey(lines[0]);
    if key0.Some? {
      PositionFinds(changes, key0.value);
      var pos := Position(changes, key0.value);
      if pos < |changes| { WithoutKeys(changes, pos); }
    }
    if i > 0 {
      var rest := lines[1..];
      EditMeans(rest, changes', applied', style, i - 1);
      EditMeansStep(lines, i, changes, applied, changes', applied', style,
          EditLines(lines, changes, applied, style).out[i]);
    }
  }

  lemma EditMeansStep(lines: seq<string>, i: nat, changes: seq<Change>, applied: seq<string>,
                      changes': seq<Change>, applied': seq<string>, style: Style, out: string)
    requires 0 < i < |lines| && LineMeans(lines[1..], i - 1, changes', applied', style, out)
    requires (changes' == changes && applied' == applied
              && (LineKey(lines[0]).Some? ==> !IsKeyOf(LineKey(lines[0]).value, changes)))
             || (exists pos :: 0 <= pos < |changes| && LineKey(lines[0]) == Some(changes[pos].key)
                               && changes' == Without(changes, pos) && applied' == applied + [changes[pos].key])
    requires DistinctKeys(changes)
    ensures LineMeans(lines, i, changes, applied, style, out)
  {
    hide LineKey, Rendered, IsKeyOf, Earlier, DistinctKeys;
    match LineKey(lines[i])
    case None =>
    case Some(key) =>
      EarlierTail(lines, i, key);
      if changes' != changes || applied' != applied {
        var pos :| 0 <= pos < |changes| && LineKey(lines[0]) == Some(changes[pos].key)
                   && changes' == Without(changes, pos) && applied' == applied + [changes[pos].key];
        WithoutKeys(changes, pos);
        AtIsKey(changes, pos);
        if IsKeyOf(key, changes') && !Earlier(lines[1..], i - 1, key) {
          var c :| 0 <= c < |changes'| && changes'[c].key == key && out == Rendered(changes'[c], style);
          assert changes'[c] == changes[if c < pos then c else c + 1];
        }
      }
  }

  lemma AtIsKey(changes: seq<Change>, pos: nat)
    requires pos < |changes|
    ensures IsKeyOf(changes[pos].key, changes)
  {
  }

  lemma EarlierTail(lines: seq<string>, i: nat, key: string)
    requires 0 < i < |lines|
    ensures Earlier(lines, i, key) <==> LineKey(lines[0]) == Some(key) || Earlier(lines[1..], i - 1, key)
    ensures lines[1..][i - 1] == lines[i]
  {
    hide LineKey;
    if Earlier(lines[1..], i - 1, key) {
      var j :| 0 <= j < i - 1 && LineKey(lines[1..][j]) == Some(key);
      assert LineKey(lines[j + 1]) == Some(key);
    }
    if Earlier(lines, i, key) && LineKey(lines[0]) != Some(key) {
      var j :| 0 <= j < i && LineKey(lines[j]) == Some(key);
      assert LineKey(lines[1..][j - 1]) == Some(key);
    }
  }
}
