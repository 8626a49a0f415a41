/** What a staged configuration says under last-wins reading, whatever keys repeat. */
module StageMeaning {
  import opened Options
  import opened Text
  import opened ConfFile
  import opened EditorLaws
  import opened ConfStage

  /** What a line says of a key. */
  function Read(raw: string, key: string): Option<string> {
    match ParseLine(raw)
    case KeyLine(k, value) => if k == key then Some(value) else None
    case _ => None
  }

  /** The value of a key: its last line wins. */
  function LastRead(lines: seq<string>, key: string): Option<string> {
    if lines == [] then None
    else
      var later := LastRead(lines[1..], key);
      if later.Some? then later else Read(lines[0], key)
  }

  /** The values of a key under the live directory, in order, of the lines the first pass leaves alone. */
  function LiveValues(lines: seq<string>, key: string, live: string): (values: seq<string>)
    ensures forall j :: 0 <= j < |values| ==> PathPrefixed(values[j], live) && |live| <= |values[j]|
  {
    if lines == [] then []
    else LiveValue(lines[0], key, live) + LiveValues(lines[1..], key, live)
  }

  function LiveValue(raw: string, key: string, live: string): seq<string> {
    var here := Read(raw, key);
    if here.Some? && PathPrefixed(here.value, live) && !Defines(raw, live) then [here.value] else []
  }

  function OfKey(changes: seq<Change>, key: string): seq<Change> {
    if changes == [] then []
    else (if changes[0].key == key then [changes[0]] else []) + OfKey(changes[1..], key)
  }

  /** What a path under the live directory is read as, once it is moved. */
  function MovedPath(value: string, live: string, stage: string): string {
    if |live| <= |value| then TrimEnd(SwapPrefix(value, live, stage)) else value
  }

  function MovedValue(value: Option<string>, live: string, stage: string): Option<string> {
    if value.Some? && PathPrefixed(value.value, live) then Some(MovedPath(value.value, live, stage)) else value
  }

  // ---- the changes of one key ---------------------------------------------------------------

  lemma {:induction false} OfKeyConcat(a: seq<Change>, b: seq<Change>, key: string)
    ensures OfKey(a + b, key) == OfKey(a, key) + OfKey(b, key)
  {
    hide OfKey;
    if a == [] {
      NoChanges(key);
      assert a + b == b && [] + OfKey(b, key) == OfKey(b, key);
    } else {
      OfKeyConcat(a[1..], b, key);
      assert a + b == [a[0]] + (a[1..] + b) && a == [a[0]] + a[1..];
      OfKeyHead(a[0], a[1..] + b, key);
      OfKeyHead(a[0], a[1..], key);
      Associative(if a[0].key == key then [a[0]] else [], OfKey(a[1..], key), OfKey(b, key));
    }
  }

  lemma OfKeyHead(c: Change, rest: seq<Change>, key: string)
    ensures OfKey([c] + rest, key) == (if c.key == key then [c] else []) + OfKey(rest, key)
  {
    assert ([c] + rest)[1..] == rest;
  }

  lemma NoChanges(key: string)
    ensures OfKey([], key) == []
  {
  }

  /** Taking out the first change of a key takes it from that key's changes only. */
  lemma {:induction false} OfKeyWithout(changes: seq<Change>, found: string, key: string)
    requires Position(changes, found) < |changes|
    ensures var pos := Position(changes, found);
            OfKey(changes, key) == (if found == key then [changes[pos]] else []) + OfKey(Without(changes, pos), key)
  {
    hide OfKey;
    var pos := Position(changes, found);
    var c, front, back := changes[pos], changes[..pos], changes[pos + 1..];
    assert changes == front + ([c] + back);
    OfKeyConcat(front, [c] + back, key);
    OfKeyHead(c, back, key);
    OfKeyConcat(front, back, key);
    if found == key {
      NoneOfKey(front, key);
      assert [] + OfKey([c] + back, key) == OfKey([c] + back, key) && [] + OfKey(back, key) == OfKey(back, key);
    } else {
      assert [] + OfKey(back, key) == OfKey(back, key)
             && [] + OfKey(Without(changes, pos), key) == OfKey(Without(changes, pos), key);
    }
  }

  lemma {:induction false} NoneOfKey(changes: seq<Change>, key: string)
    ensures OfKey(changes, key) == [] <==> forall i :: 0 <= i < |changes| ==> changes[i].key != key
  {
    if changes != [] {
      NoneOfKey(changes[1..], key);
      assert forall i :: 0 < i < |changes| ==> changes[i] == changes[1..][i - 1];
    }
  }

  /** The value a key has after `n` of its lines were edited. */
  function LastEdited(n: nat, c: seq<Change>, done: bool, before: Option<string>): Option<string> {
    if n == 0 then None
    else if c != [] then Some(TrimEnd(c[(if n <= |c| then n else |c|) - 1].value))
    else if done then None
    else before
  }

  lemma ReadHasKey(raw: string, key: string)
    ensures Read(raw, key).Some? ==> LineKey(raw) == Some(key)
    ensures key != "" && LineKey(raw) == Some(key) ==> Read(raw, key).Some?
  {
    hide Unquote;
  }

  lemma MoveReads(c: Change, live: string, stage: string, key: string)
    requires Apart(live, stage) && IsMove(c, live, stage)
    ensures Read(Rendered(c, Plain), key) == if c.key == key then Some(TrimEnd(c.value)) else None
  {
    hide ParseLine, Trim, TrimEnd, Solid;
    RenderedParses(c.key, c.value);
  }

  /** One line of the pass, for one key. */
  lemma EditLineReads(raw: string, changes: seq<Change>, applied: seq<string>, live: string, stage: string, key: string)
    requires Apart(live, stage) && AllMoves(changes, live, stage) && key != ""
    ensures var (line, changes', applied') := EditLine(raw, changes, applied, Plain);
            var c := OfKey(changes, key);
            && AllMoves(changes', live, stage)
            && if LineKey(raw) != Some(key) then
                 Read(line, key) == Read(raw, key) == None && OfKey(changes', key) == c
                     && (key in applied' <==> key in applied)
               else if c != [] then
                 Read(line, key) == Some(TrimEnd(c[0].value)) && OfKey(changes', key) == c[1..] && key in applied'
               else
                 Read(line, key) == (if key in applied then None else Read(raw, key)) && changes' == changes
                     && applied' == applied
  {
    hide Read, LineKey, Rendered, IsMove, Apart;
    ReadHasKey(raw, key);
    match LineKey(raw)
    case None =>
    case Some(k) =>
      var pos := Position(changes, k);
      NoneOfKey(changes, key);
      if pos < |changes| {
        OfKeyWithout(changes, k, key);
        WithoutMoves(changes, pos, live, stage);
        MoveReads(changes[pos], live, stage, key);
      } else if k in applied {
        CommentKey(raw);
        ReadHasKey("#" + raw, key);
      }
  }

  lemma WithoutMoves(changes: seq<Change>, pos: nat, live: string, stage: string)
    requires AllMoves(changes, live, stage) && pos < |changes|
    ensures AllMoves(Without(changes, pos), live, stage)
  {
    hide IsMove;
  }

  /** The pass over all lines, for one key: its lines take its changes in order. */
  lemma {:induction false} EditLast(lines: seq<string>, changes: seq<Change>, applied: seq<string>, live: string,
                                    stage: string, key: string)
    requires Apart(live, stage) && AllMoves(changes, live, stage) && key != ""
    ensures var e := EditLines(lines, changes, applied, Plain);
            var c, n := OfKey(changes, key), CountKey(lines, key);
            && LastRead(e.out, key) == LastEdited(n, c, key in applied, LastRead(lines, key))
            && OfKey(e.remaining, key) == Rest(n, c)
            && AllMoves(e.remaining, live, stage)
  {
    hide Read, LineKey, IsMove, Apart, AllMoves, EditLine, OfKey, LastEdited, Rest;
    if lines == [] {
      NothingEdited(OfKey(changes, key), key in applied);
    } else {
      var (line, changes', applied') := EditLine(lines[0], changes, applied, Plain);
      EditLineReads(lines[0], changes, applied, live, stage, key);
      EditLast(lines[1..], changes', applied', live, stage, key);
      var e := EditLines(lines, changes, applied, Plain);
      assert e.out[1..] == EditLines(lines[1..], changes', applied', Plain).out && e.out[0] == line;
      SomeLineSomeValue(lines[1..], key);
      LastStep(LineKey(lines[0]) == Some(key), CountKey(lines[1..], key), OfKey(changes, key), OfKey(changes', key),
               key in applied, key in applied', Read(lines[0], key), Read(line, key), LastRead(lines[1..], key));
    }
  }

  /** The changes of a key that `n` lines leave over. */
  function Rest(n: nat, c: seq<Change>): seq<Change> {
    if n <= |c| then c[n..] else []
  }

  lemma NothingEdited(c: seq<Change>, done: bool)
    ensures LastEdited(0, c, done, None) == None && Rest(0, c) == c
  {
  }

  /** One line put before `n` lines of the key. */
  lemma LastStep(own: bool, n: nat, c: seq<Change>, c': seq<Change>, done: bool, done': bool,
                 here: Option<string>, here': Option<string>, later: Option<string>)
    requires later.Some? <==> n > 0
    requires if !own then here == here' == None && c' == c && done' == done
             else if c != [] then here' == Some(TrimEnd(c[0].value)) && c' == c[1..] && done'
             else here' == (if done then None else here) && c' == c && done' == done
    ensures var later', m := LastEdited(n, c', done', later), if own then n + 1 else n;
            && (if later'.Some? then later' else here') == LastEdited(m, c, done, if later.Some? then later else here)
            && Rest(n, c') == Rest(m, c)
  {
    hide TrimEnd;
  }

  lemma {:induction false} SomeLineSomeValue(lines: seq<string>, key: string)
    requires key != ""
    ensures CountKey(lines, key) > 0 <==> LastRead(lines, key).Some?
  {
    hide Read, LineKey;
    if lines != [] {
      ReadHasKey(lines[0], key);
      SomeLineSomeValue(lines[1..], key);
    }
  }

  /** After the first pass, the changes of a key are the moves of its live values, in order. */
  lemma {:induction false} MovesOfKey(lines: seq<string>, live: string, stage: string, key: string)
    requires Apart(live, stage)
    ensures var c, v := OfKey(Moves(RetargetAll(lines, live, stage), live, stage), key), LiveValues(lines, key, live);
            && |c| == |v| <= CountKey(lines, key)
            && forall j :: 0 <= j < |v| ==> |live| <= |v[j]| && c[j] == Change(key, SwapPrefix(v[j], live, stage))
    decreases |lines|
  {
    hide Read, LineKey, LineMoves, Retarget, Apart, PathPrefixed, SwapPrefix, LiveValue;
    if lines != [] {
      var mid := RetargetAll(lines, live, stage);
      assert mid[1..] == RetargetAll(lines[1..], live, stage);
      MovesOfKey(lines[1..], live, stage, key);
      OfKeyConcat(LineMoves(mid[0], live, stage), Moves(mid[1..], live, stage), key);
      LineMovesOfKey(lines[0], live, stage, key);
    }
  }

  lemma LineMovesOfKey(raw: string, live: string, stage: string, key: string)
    requires Apart(live, stage)
    ensures var c, v := OfKey(LineMoves(Retarget(raw, live, stage), live, stage), key), LiveValue(raw, key, live);
            if v == [] then c == []
            else
              && LineKey(raw) == Some(key) && |v| == 1 && |live| <= |v[0]|
              && c == [Change(key, SwapPrefix(v[0], live, stage))]
  {
    hide LineKey, ParseLine, Apart, Defines;
    ReadHasKey(raw, key);
    if Defines(raw, live) {
      DefinitionClear(raw, live, stage);
    } else {
      RetargetKept(raw, live, stage);
    }
  }

  lemma RetargetKept(raw: string, live: string, stage: string)
    requires !Defines(raw, live)
    ensures Retarget(raw, live, stage) == raw
  {
  }

  /** A rewritten definition is not under the live directory. */
  lemma DefinitionClear(raw: string, live: string, stage: string)
    requires Apart(live, stage) && Defines(raw, live)
    ensures Clear(Retarget(raw, live, stage), live)
  {
    hide Trim, TrimEnd, TrimStart, ParseLine, Solid, Apart;
    var t := TrimStart(raw);
    var eq := IndexOf(t, '=');
    var p, val := t[..eq], Trim(t[eq + 1..]);
    PrefixTrim("", p);
    assert "" + p == p;
    KeyTrimmed(p);
    var swapped := SwapPrefix(val, live, stage);
    SwappedSlash(val, live, stage);
    RenderedParses(Trim(p), swapped);
    SlashTrim(swapped);
    SwappedTrim(val, live, stage);
    SwappedApart(val, live, stage, TrimEnd(swapped));
  }

  lemma SwappedSlash(v: string, live: string, stage: string)
    requires Apart(live, stage) && |live| <= |v|
    ensures SwapPrefix(v, live, stage) != "" && SwapPrefix(v, live, stage)[0] == '/' && IsDir(stage)
  {
  }

  lemma {:induction false} LastConcat(a: seq<string>, b: seq<string>, key: string)
    ensures LastRead(a + b, key) == if LastRead(b, key).Some? then LastRead(b, key) else LastRead(a, key)
  {
    hide Read;
    if a == [] {
      assert a + b == b;
    } else {
      assert (a + b)[1..] == a[1..] + b;
      LastConcat(a[1..], b, key);
    }
  }

  lemma {:induction false} OthersReadNothing(changes: seq<Change>, live: string, stage: string, key: string)
    requires Apart(live, stage) && AllMoves(changes, live, stage) && OfKey(changes, key) == []
    ensures LastRead(RenderedAll(changes, Plain), key) == None
  {
    hide Read, IsMove, Apart, Rendered;
    if changes != [] {
      MoveReads(changes[0], live, stage, key);
      assert RenderedAll(changes, Plain)[1..] == RenderedAll(changes[1..], Plain);
      OthersReadNothing(changes[1..], live, stage, key);
    }
  }

  // ---- the meaning of the rewritten text --------------------------------------------------------

  /** The lines both passes make: the last live value of the key, moved, or the value it has. */
  lemma LastOfFinal(text: string, live: string, stage: string, key: string)
    requires Apart(live, stage) && key != ""
    ensures var v, mid := LiveValues(Lines(text), key, live), RetargetAll(Lines(text), live, stage);
            LastRead(Final(text, live, stage), key) ==
            if v != [] then Some(MovedPath(v[|v| - 1], live, stage)) else LastRead(mid, key)
  {
    hide Moves, LastRead, EditLines, OfKey, CountKey, Apart, IsMove, AllMoves, TrimEnd, SwapPrefix, Lines,
         RetargetAll, LiveValues;
    var mid := RetargetAll(Lines(text), live, stage);
    var changes := Moves(mid, live, stage);
    MovesOfKey(Lines(text), live, stage, key);
    MovesHandle(mid, live, stage);
    EditLast(mid, changes, [], live, stage, key);
    CountRetargeted(Lines(text), live, stage, key);
    var e := EditLines(mid, changes, [], Plain);
    LastConcat(e.out, RenderedAll(e.remaining, Plain), key);
    OthersReadNothing(e.remaining, live, stage, key);
    SomeLineSomeValue(mid, key);
  }

  lemma {:induction false} CountRetargeted(lines: seq<string>, live: string, stage: string, key: string)
    requires Apart(live, stage)
    ensures CountKey(RetargetAll(lines, live, stage), key) == CountKey(lines, key)
    decreases |lines|
  {
    hide LineKey, Retarget, Apart;
    if lines != [] {
      RetargetMoves(lines[0], live, stage);
      assert RetargetAll(lines, live, stage)[1..] == RetargetAll(lines[1..], live, stage);
      CountRetargeted(lines[1..], live, stage, key);
    }
  }

  lemma {:induction false} LastAlike(a: seq<string>, b: seq<string>, key: string)
    requires ReadsAs(a, b)
    ensures LastRead(a, key) == LastRead(b, key)
  {
    hide ParseLine, TrimEnd;
    if a != [] {
      ParsedAlike(a[0], b[0]);
      AlikeTail(a, b);
      LastAlike(a[1..], b[1..], key);
    }
  }

  /** A key without live values says after the first pass what it said, moved. */
  lemma {:induction false} UnmovedLast(lines: seq<string>, live: string, stage: string, key: string)
    requires Apart(live, stage)
    ensures var last := LastRead(RetargetAll(lines, live, stage), key);
            && MovedValue(last, live, stage) == MovedValue(LastRead(lines, key), live, stage)
            && (LiveValues(lines, key, live) == [] && last.Some? ==> !PathPrefixed(last.value, live))
    decreases |lines|
  {
    hide Read, Retarget, Apart, MovedPath, PathPrefixed, LiveValue;
    if lines != [] {
      UnmovedLast(lines[1..], live, stage, key);
      assert RetargetAll(lines, live, stage)[1..] == RetargetAll(lines[1..], live, stage);
      RetargetReads(lines[0], live, stage, key);
    }
  }

  lemma RetargetReads(raw: string, live: string, stage: string, key: string)
    requires Apart(live, stage)
    ensures var before, after := Read(raw, key), Read(Retarget(raw, live, stage), key);
            && MovedValue(after, live, stage) == MovedValue(before, live, stage)
            && (after.Some? && PathPrefixed(after.value, live) ==> LiveValue(raw, key, live) != [])
  {
    hide Retarget, ParseLine, Apart, TrimEnd, Defines, PathPrefixed;
    RetargetMoves(raw, live, stage);
    PrefixLonger(live);
    if Defines(raw, live) { DefinitionClear(raw, live, stage); } else { RetargetKept(raw, live, stage); }
  }

  lemma PrefixLonger(live: string)
    ensures forall v :: PathPrefixed(v, live) ==> |live| <= |v|
  {
  }

  /** Where a key has a value under the live directory, on a line the first pass leaves, the last such
      value, moved, is what the staged text says of it; otherwise it says what it said, moved. */
  lemma LastValue(text: string, live: string, stage: string, key: string)
    requires Apart(live, stage) && key != ""
    ensures var v := LiveValues(Lines(text), key, live);
            LastRead(Lines(Rewritten(text, live, stage)), key) ==
            if v != [] then Some(MovedPath(v[|v| - 1], live, stage))
                else MovedValue(LastRead(Lines(text), key), live, stage)
  {
    hide Lines, RetargetAll, LastRead, LiveValues, Rewritten, ReadsAs, Apart, PathPrefixed, MovedPath, Final, Solid;
    ApartDirs(live, stage);
    RewrittenAlike(text, live, stage);
    LastAlike(Lines(Rewritten(text, live, stage)), Final(text, live, stage), key);
    LastOfFinal(text, live, stage, key);
    UnmovedLast(Lines(text), live, stage, key);
  }

  lemma ApartDirs(live: string, stage: string)
    requires Apart(live, stage)
    ensures IsDir(stage) && IsDir(live)
  {
  }

  /** A later value, not left under the live directory by the first pass, says otherwise than
      the last one that is. */
  predicate Overtaken(lines: seq<string>, key: string, live: string, stage: string) {
    var v := LiveValues(lines, key, live);
    v != [] && MovedValue(LastRead(lines, key), live, stage) != Some(MovedPath(v[|v| - 1], live, stage))
  }

  /** The staged text keeps a key's last-wins meaning, moved to the stage, exactly where no value
      of another kind overtakes the last one the rewriting moves. */
  lemma MeaningKept(text: string, live: string, stage: string, key: string)
    requires Apart(live, stage) && key != ""
    ensures LastRead(Lines(Rewritten(text, live, stage)), key) == MovedValue(LastRead(Lines(text), key), live, stage)
            <==> !Overtaken(Lines(text), key, live, stage)
  {
    hide Lines, Rewritten, LastRead, LiveValues, Apart, MovedPath, MovedValue;
    LastValue(text, live, stage, key);
  }

  // ---- what becomes of each line ------------------------------------------------------------------------

  /** The pass, seen from one line: the lines of a key take its changes in order, and once
      there are changes of a key its other lines are commented out. */
  lemma {:induction false} EditAt(lines: seq<string>, changes: seq<Change>, applied: seq<string>, i: nat)
    requires i < |lines|
    ensures EditLines(lines, changes, applied, Plain).out[i] ==
            match LineKey(lines[i])
            case None => lines[i]
            case Some(k) =>
              var c, r := OfKey(changes, k), CountKey(lines[..i], k);
              if r < |c| then Rendered(c[r], Plain) else if c != [] || k in applied then "#" + lines[i] else lines[i]
    decreases i
  {
    hide LineKey, Rendered, OfKey, CountKey, EditLine;
    var (line, changes', applied') := EditLine(lines[0], changes, applied, Plain);
    if i == 0 {
      NoneBefore(lines, LineKey(lines[0]));
      EditFirst(lines[0], changes, applied);
    } else {
      assert lines[1..][i - 1] == lines[i];
      EditAt(lines[1..], changes', applied', i - 1);
      match LineKey(lines[i]) {
        case None =>
        case Some(k) =>
          CountFirst(lines, i, k);
          EditKey(lines[0], changes, applied, k);
      }
    }
  }

  lemma NoneBefore(lines: seq<string>, key: Option<string>)
    requires lines != []
    ensures key.Some? ==> CountKey(lines[..0], key.value) == 0
  {
  }

  lemma CountFirst(lines: seq<string>, i: nat, key: string)
    requires 0 < i <= |lines|
    ensures CountKey(lines[..i], key)
            == (if LineKey(lines[0]) == Some(key) then 1 else 0) + CountKey(lines[1..][..i - 1], key)
  {
    hide LineKey;
    assert lines[..i][1..] == lines[1..][..i - 1];
  }

  lemma EditFirst(raw: string, changes: seq<Change>, applied: seq<string>)
    ensures EditLine(raw, changes, applied, Plain).0 ==
            match LineKey(raw)
            case None => raw
            case Some(k) =>
              var c := OfKey(changes, k);
              if c != [] then Rendered(c[0], Plain) else if k in applied then "#" + raw else raw
  {
    hide LineKey, Rendered, OfKey;
    if LineKey(raw).Some? {
      var k := LineKey(raw).value;
      NoneOfKey(changes, k);
      if Position(changes, k) < |changes| { OfKeyWithout(changes, k, k); }
    }
  }

  /** What a line takes of the changes of a key. */
  lemma EditKey(raw: string, changes: seq<Change>, applied: seq<string>, k: string)
    ensures var (_, changes', applied') := EditLine(raw, changes, applied, Plain);
            var c := OfKey(changes, k);
            if LineKey(raw) == Some(k) && c != [] then OfKey(changes', k) == c[1..] && k in applied'
            else OfKey(changes', k) == c && (k in applied' <==> k in applied)
  {
    hide LineKey, Rendered, OfKey;
    if LineKey(raw).Some? {
      var found := LineKey(raw).value;
      NoneOfKey(changes, found);
      if Position(changes, found) < |changes| { OfKeyWithout(changes, found, k); }
    }
  }

  /** Line by line, whatever keys repeat: the lines of a key with live values read as those
      values, moved, in order; its further lines are comments; every other line reads as it did,
      a definition under the live directory moved. */
  lemma EachLine(text: string, live: string, stage: string, i: nat)
    requires Apart(live, stage) && i < |Lines(text)|
    ensures var lines, after := Lines(text), Lines(Rewritten(text, live, stage));
            && i < |after|
            && match LineKey(lines[i])
               case None => ParseLine(after[i]) == ParseLine(lines[i])
               case Some(k) =>
                 var v, r := LiveValues(lines, k, live), CountKey(lines[..i], k);
                 if r < |v| then ParseLine(after[i]) == KeyLine(k, MovedPath(v[r], live, stage))
                 else if v != [] then LineKey(after[i]) == None
                 else ParseLine(after[i]) == Moved(ParseLine(lines[i]), live, stage)
  {
    hide Lines, Rewritten, LineKey, ParseLine, ReadsAs, Apart, LiveValues, EditLines, RetargetAll, Moved, Moves,
         OfKey, CountKey, AllMoves, Solid;
    var lines, mid := Lines(text), RetargetAll(Lines(text), live, stage);
    var changes := Moves(mid, live, stage);
    ApartDirs(live, stage);
    RewrittenAlike(text, live, stage);
    AlikeAt(Lines(Rewritten(text, live, stage)), Final(text, live, stage), i);
    RetargetMoves(lines[i], live, stage);
    MovesHandle(mid, live, stage);
    EditAt(mid, changes, [], i);
    match LineKey(lines[i])
    case None =>
      UnkeyedKept(lines[i], live, stage);
    case Some(k) =>
      MovesOfKey(lines, live, stage, k);
      assert mid[..i] == RetargetAll(lines[..i], live, stage);
      CountRetargeted(lines[..i], live, stage, k);
      KeyedLine(mid[i], changes, CountKey(lines[..i], k), live, stage, k);
      if OfKey(changes, k) == [] { UnmovedLine(lines, i, live, stage, k); }
  }

  lemma AlikeAt(a: seq<string>, b: seq<string>, i: nat)
    requires ReadsAs(a, b) && i < |b|
    ensures i < |a| && ParseLine(a[i]) == ParseLine(b[i]) && LineKey(a[i]) == LineKey(b[i])
  {
    ParsedAlike(a[i], b[i]);
  }

  lemma UnkeyedKept(raw: string, live: string, stage: string)
    requires LineKey(raw) == None && Apart(live, stage)
    ensures ParseLine(Retarget(raw, live, stage)) == ParseLine(raw)
  {
    hide LineKey, ParseLine, Retarget, Apart;
    RetargetMoves(raw, live, stage);
    KeyLineHasKey(raw);
    KeyLineHasKey(Retarget(raw, live, stage));
  }

  lemma {:induction false} OfKeyMoves(changes: seq<Change>, live: string, stage: string, key: string)
    requires AllMoves(changes, live, stage)
    ensures AllMoves(OfKey(changes, key), live, stage)
    ensures forall j :: 0 <= j < |OfKey(changes, key)| ==> OfKey(changes, key)[j].key == key
  {
    hide IsMove;
    if changes != [] {
      assert forall j :: 0 <= j < |changes[1..]| ==> changes[1..][j] == changes[j + 1];
      OfKeyMoves(changes[1..], live, stage, key);
    }
  }

  /** A line of a key after the pass: a change, a comment, or itself. */
  lemma KeyedLine(raw: string, changes: seq<Change>, r: nat, live: string, stage: string, k: string)
    requires Apart(live, stage) && AllMoves(changes, live, stage)
    ensures LineKey("#" + raw) == None
    ensures var c := OfKey(changes, k);
            r < |c| ==> ParseLine(Rendered(c[r], Plain)) == KeyLine(k, TrimEnd(c[r].value))
  {
    hide ParseLine, LineKey, TrimEnd, Trim, Solid, OfKey;
    CommentKey(raw);
    OfKeyMoves(changes, live, stage, k);
    var c := OfKey(changes, k);
    if r < |c| {
      assert IsMove(c[r], live, stage);
      RenderedParses(k, c[r].value);
    }
  }

  lemma {:induction false} LiveNowhere(lines: seq<string>, i: nat, live: string, key: string)
    requires LiveValues(lines, key, live) == [] && i < |lines|
    ensures LiveValue(lines[i], key, live) == []
    decreases i
  {
    hide LiveValue;
    if i > 0 { LiveNowhere(lines[1..], i - 1, live, key); }
  }

  lemma UnmovedLine(lines: seq<string>, i: nat, live: string, stage: string, k: string)
    requires Apart(live, stage) && LiveValues(lines, k, live) == [] && i < |lines| && LineKey(lines[i]) == Some(k)
    ensures ParseLine(Retarget(lines[i], live, stage)) == Moved(ParseLine(lines[i]), live, stage)
  {
    hide LineKey, ParseLine, Retarget, Apart, PathPrefixed, LiveValue, LiveValues, TrimEnd;
    RetargetMoves(lines[i], live, stage);
    RetargetReads(lines[i], live, stage, k);
    LiveNowhere(lines, i, live, k);
    KeyLineHasKey(Retarget(lines[i], live, stage));
  }

  /** No two live lines have one key. */
  ghost predicate DistinctLive(lines: seq<string>) {
    forall i, j :: 0 <= i < j < |lines| && LineKey(lines[i]).Some? ==> LineKey(lines[i]) != LineKey(lines[j])
  }

  /** Where every key has one live line, each line reads as it did, a value under the live
      directory moved. */
  lemma EachLineMoved(text: string, live: string, stage: string, i: nat)
    requires Apart(live, stage) && DistinctLive(Lines(text)) && i < |Lines(text)|
    ensures var after := Lines(Rewritten(text, live, stage));
            i < |after| && ParseLine(after[i]) == Moved(ParseLine(Lines(text)[i]), live, stage)
  {
    hide Lines, Rewritten, LineKey, ParseLine, Apart, PathPrefixed, TrimEnd, LiveValues;
    var lines := Lines(text);
    EachLine(text, live, stage, i);
    KeyLineHasKey(lines[i]);
    PrefixLonger(live);
    if LineKey(lines[i]).Some? {
      OnlyLine(lines, i, live, LineKey(lines[i]).value);
    }
  }

  /** The only line of a key: none before it, and no live value but its own. */
  lemma {:induction false} OnlyLine(lines: seq<string>, i: nat, live: string, key: string)
    requires i < |lines| && LineKey(lines[i]) == Some(key)
    requires forall j :: 0 <= j < |lines| && j != i ==> LineKey(lines[j]) != Some(key)
    ensures CountKey(lines[..i], key) == 0 && LiveValues(lines, key, live) == LiveValue(lines[i], key, live)
    decreases |lines|
  {
    hide LineKey, LiveValue;
    var rest := lines[1..];
    assert forall j :: 0 <= j < |rest| ==> rest[j] == lines[j + 1];
    if i == 0 {
      NoLiveValues(rest, live, key);
    } else {
      assert lines[..i][1..] == rest[..i - 1];
      OnlyLine(rest, i - 1, live, key);
      OtherKeyNoValue(lines[0], live, key);
    }
  }

  lemma OtherKeyNoValue(raw: string, live: string, key: string)
    requires LineKey(raw) != Some(key)
    ensures LiveValue(raw, key, live) == []
  {
    hide LineKey, Read, Defines, PathPrefixed;
    ReadHasKey(raw, key);
  }

  lemma {:induction false} NoLiveValues(lines: seq<string>, live: string, key: string)
    requires forall j :: 0 <= j < |lines| ==> LineKey(lines[j]) != Some(key)
    ensures LiveValues(lines, key, live) == []
  {
    hide LineKey, LiveValue;
    if lines != [] {
      OtherKeyNoValue(lines[0], live, key);
      NoLiveValues(lines[1..], live, key);
    }
  }

  /** A live value followed by another one: on the stage the live one wins. */
  lemma OvertakenExample()
    ensures var before := ["a=/l/x", "a=y"];
            var after := Lines(Rewritten(JoinLines(before), "/l", "/s"));
            LastRead(before, "a") == Some("y") && LastRead(after, "a") == Some("/s/x")
  {
    hide Read, PathPrefixed, TrimEnd, Lines, Rewritten, JoinLines, Apart, NoChar, Defines;
    var before := ["a=/l/x", "a=y"];
    assert before[1..] == ["a=y"] && ["a=y"][1..] == [];
    ExampleReads();
    ExampleText(before);
    ExampleDirs();
    LastValue(JoinLines(before), "/l", "/s", "a");
    assert LiveValue(before[0], "a", "/l") == ["/l/x"] && LiveValue(before[1], "a", "/l") == [];
    assert LiveValues(before[1..], "a", "/l") == [] && LiveValues(before, "a", "/l") == ["/l/x"];
    assert SwapPrefix("/l/x", "/l", "/s") == "/s/x";
  }

  lemma ExampleText(lines: seq<string>)
    requires lines == ["a=/l/x", "a=y"]
    ensures Lines(JoinLines(lines)) == lines
  {
    hide Lines, JoinLines;
    assert AllOneLine(lines);
    LinesOfJoin(lines, false);
    assert JoinLines(lines) + "" == JoinLines(lines);
  }

  lemma ExampleDirs()
    ensures Apart("/l", "/s") && PathPrefixed("/l/x", "/l") && !PathPrefixed("y", "/l")
    ensures !Defines("a=/l/x", "/l") && !Defines("a=y", "/l")
  {
  }

  lemma ExampleReads()
    ensures Read("a=/l/x", "a") == Some("/l/x") && Read("a=y", "a") == Some("y")
    ensures TrimEnd("/s/x") == "/s/x"
  {
    hide ParseLine, Trim;
    SolidWord("a");
    SolidWord("/l/x");
    SolidWord("y");
    assert "a" + "=" + "/l/x" == "a=/l/x" && "a" + "=" + "y" == "a=y";
    ParseLineOf("a", "/l/x");
    ParseLineOf("a", "y");
  }

  lemma SolidWord(w: string)
    requires w != "" && w[0] in "a/y" && w[|w| - 1] in "axy"
    ensures Trim(w) == w
  {
    TrimSolid(w);
  }
}
