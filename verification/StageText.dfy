/** The rewritten configuration as text (confstage.rs): which lines change, and into what. */
module StageText {
  import opened Options
  import opened Text
  import opened ConfFile
  import opened EditorLaws
  import opened ConfStage
  import opened StageMeaning

  // ---- paths -------------------------------------------------------------------------------

  /** Under a directory is the directory itself and what follows it after a slash, nothing else. */
  lemma PathMeans(value: string, dir: string, rest: string)
    ensures PathPrefixed(dir, dir) && PathPrefixed(dir + "/" + rest, dir)
    ensures PathPrefixed(value, dir) && value != dir ==> value == dir + "/" + value[|dir| + 1..]
  {
    assert (dir + "/" + rest)[..|dir|] == dir;
    if PathPrefixed(value, dir) && value != dir { assert value[..|dir|] == dir && value[|dir|] == '/'; }
  }

  /** A path keeps what follows the directory. */
  lemma SwapMeans(rest: string, from: string, to: string)
    ensures SwapPrefix(from + rest, from, to) == to + rest
  {
    assert (from + rest)[|from|..] == rest;
  }

  /** The id of a path below either directory is `ms:` and the path from there; others have none. */
  lemma IdMeans(rel: string, live: string, stage: string)
    requires Apart(live, stage)
    ensures ToLiveId(live + "/" + rel, stage, live) == Some("ms:" + rel)
    ensures ToLiveId(stage + "/" + rel, stage, live) == Some("ms:" + rel)
    ensures forall p :: (PathPrefixed(p, live) && p != live) || (PathPrefixed(p, stage) && p != stage) <==>
              ToLiveId(p, stage, live).Some?
  {
    hide IsDir;
    var p, q := live + "/" + rel, stage + "/" + rel;
    assert p[..|live|] == live && p[|live|..] == "/" + rel && p[|live| + 1..] == rel;
    assert q[..|stage|] == stage && q[|stage|..] == "/" + rel && q[|stage| + 1..] == rel;
    if PathPrefixed(p, stage) { NotBoth(p, live, stage); }
  }

  // ---- variable definitions ---------------------------------------------------------------------

  /** `raw` defines a variable: white space, a name from `%` to `%`, an equals sign, a path under the
      live directory, white space anywhere between. */
  ghost predicate DefinitionOf(raw: string, a: string, p: string, r: string, live: string) {
    && raw == a + p + "=" + r && AllSpace(a) && NoChar(p, '=') && p != "" && p[0] == '%'
    && Trim(p) != "" && Trim(p)[|Trim(p)| - 1] == '%' && PathPrefixed(Trim(r), live)
  }

  lemma DefinesMeans(raw: string, live: string, stage: string)
    ensures Defines(raw, live) <==> exists a, p, r :: DefinitionOf(raw, a, p, r, live)
    ensures forall a, p, r :: DefinitionOf(raw, a, p, r, live) ==>
              Retarget(raw, live, stage) == Trim(p) + " = " + stage + Trim(r)[|live|..]
    ensures !Defines(raw, live) ==> Retarget(raw, live, stage) == raw
  {
    hide Trim, TrimStart, PathPrefixed;
    var t := TrimStart(raw);
    var eq := IndexOf(t, '=');
    if Defines(raw, live) {
      var a := TrimStartParts(raw);
      assert raw == a + t[..eq] + "=" + t[eq + 1..];
      assert DefinitionOf(raw, a, t[..eq], t[eq + 1..], live);
    }
    PrefixLonger(live);
    forall a, p, r | DefinitionOf(raw, a, p, r, live)
      ensures Defines(raw, live) && Retarget(raw, live, stage) == Trim(p) + " = " + stage + Trim(r)[|live|..]
    {
      DefinitionCut(raw, a, p, r, live);
      assert Trim(p) + " = " + (stage + Trim(r)[|live|..]) == Trim(p) + " = " + stage + Trim(r)[|live|..];
    }
  }

  lemma DefinitionCut(raw: string, a: string, p: string, r: string, live: string)
    requires DefinitionOf(raw, a, p, r, live)
    ensures TrimStart(raw) == p + "=" + r && IndexOf(p + "=" + r, '=') == |p|
    ensures (p + "=" + r)[..|p|] == p && (p + "=" + r)[|p| + 1..] == r
  {
    hide Trim, PathPrefixed;
    assert raw == a + (p + "=" + r) && (p + "=" + r)[0] == '%' && !IsSpace('%');
    TrimStartOf(a, p + "=" + r);
    IndexOfFirst(p, '=', r);
  }

  /** A definition has a key. */
  lemma DefinitionKey(raw: string, live: string)
    requires Defines(raw, live)
    ensures LineKey(raw).Some?
  {
    hide Trim, TrimStart, PathPrefixed, LineKey;
    DefinesMeans(raw, live, "");
    var a, p, r :| DefinitionOf(raw, a, p, r, live);
    EqualsNotSpace();
    SpaceHasNone(a, '=');
    NoCharConcat(a, p, '=');
    PrefixTrim(a, p);
    LineKeyOf(a + p, r);
    assert raw == (a + p) + "=" + r;
  }

  // ---- every line, and no more -------------------------------------------------------------------

  /** Every change finds its line. */
  lemma NothingAppended(text: string, live: string, stage: string)
    requires Apart(live, stage)
    ensures var mid := RetargetAll(Lines(text), live, stage);
            EditLines(mid, Moves(mid, live, stage), [], Plain).remaining == []
  {
    hide Lines, RetargetAll, EditLines, Moves, Apart, OfKey, AllMoves, CountKey, LiveValues, LastRead;
    var mid := RetargetAll(Lines(text), live, stage);
    var changes := Moves(mid, live, stage);
    var left := EditLines(mid, changes, [], Plain).remaining;
    MovesHandle(mid, live, stage);
    if left != [] {
      EditLast(mid, changes, [], live, stage, FirstMovedKey(mid, changes, live, stage));
      MovesOfKey(Lines(text), live, stage, left[0].key);
      CountRetargeted(Lines(text), live, stage, left[0].key);
      NoneOfKey(left, left[0].key);
      assert false;
    }
  }

  ghost function FirstMovedKey(mid: seq<string>, changes: seq<Change>, live: string, stage: string): (key: string)
    requires Apart(live, stage) && AllMoves(changes, live, stage) && EditLines(mid, changes, [], Plain).remaining != []
    ensures key != "" && key == EditLines(mid, changes, [], Plain).remaining[0].key
  {
    RemainingMoves(mid, changes, [], live, stage);
    EditLines(mid, changes, [], Plain).remaining[0].key
  }

  lemma {:induction false} RemainingMoves(lines: seq<string>, changes: seq<Change>, applied: seq<string>, live: string,
                                          stage: string)
    requires AllMoves(changes, live, stage)
    ensures AllMoves(EditLines(lines, changes, applied, Plain).remaining, live, stage)
  {
    hide LineKey, IsMove, Rendered;
    if lines != [] {
      var (line, changes', applied') := EditLine(lines[0], changes, applied, Plain);
      RemainingMoves(lines[1..], changes', applied', live, stage);
    }
  }

  /** What becomes of line `i`. A key with values under the live directory: its lines carry these,
      moved, in order, and then become comments. Every other line is kept, but that a variable's path
      under the live directory is moved. */
  ghost function Becomes(lines: seq<string>, i: nat, live: string, stage: string): string
    requires i < |lines|
  {
    match LineKey(lines[i])
    case None => lines[i]
    case Some(k) =>
      var v, r := LiveValues(lines, k, live), CountKey(lines[..i], k);
      if r < |v| then k + " = " + stage + v[r][|live|..]
      else if v != [] then "#" + Retarget(lines[i], live, stage)
      else Retarget(lines[i], live, stage)
  }

  /** Line by line, the text but for white space at the end of lines. */
  lemma EachLineText(text: string, live: string, stage: string, i: nat)
    requires Apart(live, stage) && i < |Lines(text)|
    ensures var lines, after := Lines(text), Lines(Rewritten(text, live, stage));
            |after| == |lines| && TrimEnd(after[i]) == TrimEnd(Becomes(lines, i, live, stage))
  {
    hide Lines, Rewritten, TrimEnd, Apart, EditLines, RetargetAll, Moves, Becomes, Solid;
    ApartDirs(live, stage);
    RewrittenAlike(text, live, stage);
    NothingAppended(text, live, stage);
    FinalLine(text, live, stage, i);
    var e := EditLines(RetargetAll(Lines(text), live, stage),
        Moves(RetargetAll(Lines(text), live, stage), live, stage), [], Plain);
    assert e.out + RenderedAll([], Plain) == e.out;
  }

  lemma FinalLine(text: string, live: string, stage: string, i: nat)
    requires Apart(live, stage) && i < |Lines(text)|
    ensures Final(text, live, stage)[i] == Becomes(Lines(text), i, live, stage)
  {
    hide Lines, LineKey, Apart, LiveValues, EditLines, RetargetAll, Moves, OfKey, CountKey, Retarget, Defines,
         PathPrefixed, Moved,
         ParseLine, Rendered, SwapPrefix;
    var lines, mid := Lines(text), RetargetAll(Lines(text), live, stage);
    var changes := Moves(mid, live, stage);
    RetargetMoves(lines[i], live, stage);
    EditAt(mid, changes, [], i);
    match LineKey(lines[i])
    case None =>
      if Defines(lines[i], live) { DefinitionKey(lines[i], live); }
      RetargetKeeps(lines[i], live, stage);
    case Some(k) =>
      MovesOfKey(lines, live, stage, k);
      assert mid[..i] == RetargetAll(lines[..i], live, stage);
      CountRetargeted(lines[..i], live, stage, k);
      var v, r := LiveValues(lines, k, live), CountKey(lines[..i], k);
      if r < |v| { RenderedMove(OfKey(changes, k)[r], k, v[r], live, stage); }
  }

  lemma RetargetKeeps(raw: string, live: string, stage: string)
    ensures !Defines(raw, live) ==> Retarget(raw, live, stage) == raw
  {
  }

  lemma RenderedMove(c: Change, k: string, v: string, live: string, stage: string)
    requires |live| <= |v| && c == Change(k, SwapPrefix(v, live, stage))
    ensures Rendered(c, Plain) == k + " = " + stage + v[|live|..]
  {
    assert k + " = " + (stage + v[|live|..]) == k + " = " + stage + v[|live|..];
  }

  /** The text ends in a line end exactly when it did. */
  lemma SameEnd(text: string, live: string, stage: string)
    requires Apart(live, stage)
    ensures EndsInNewline(Rewritten(text, live, stage)) == EndsInNewline(text)
  {
    hide Lines, RetargetAll, Moves, EditLines, Solid, JoinLines, EndsInNewline, ReadsAs;
    var mid := RetargetAll(Lines(text), live, stage);
    var s, changes := WithEnd(mid, text), Moves(mid, live, stage);
    FirstPass(text, live, stage);
    RereadAlike(mid, EndsInNewline(text));
    MovesAlike(Lines(s), mid, live, stage);
    if changes != [] {
      MovesClean(mid, live, stage);
      LinesOfApplied(s, changes, Plain);
      EditAlike(Lines(s), mid, changes, []);
      NothingAppended(text, live, stage);
    }
  }
}
