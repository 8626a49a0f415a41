/** Forwarder targets (cpaudit.rs): split at commas outside quotes, joined by one
    audit task and split again by another. */
module Targets {
  import opened Options
  import opened Text

  function Kept(cur: string): seq<string> {
    if Trim(cur) == "" then [] else [Trim(cur)]
  }

  /** The splitter from the middle of a text: `cur` is collected, `quoted` tells where it stands. */
  function SplitFrom(s: string, cur: string, quoted: bool): seq<string> {
    if s == "" then Kept(cur)
    else if s[0] == '"' then SplitFrom(s[1..], cur + [s[0]], !quoted)
    else if s[0] == ',' && !quoted then Kept(cur) + SplitFrom(s[1..], "", quoted)
    else SplitFrom(s[1..], cur + [s[0]], quoted)
  }

  method SplitTargets(s: string) returns (out: seq<string>)
    ensures out == SplitFrom(s, "", false)
  {
    out := [];
    var cur := "";
    var quoted := false;
    for i := 0 to |s|
      invariant SplitFrom(s, "", false) == out + SplitFrom(s[i..], cur, quoted)
    {
      var ch := s[i];
      assert s[i..][1..] == s[i + 1..];
      if ch == '"' {
        quoted := !quoted;
        cur := cur + [ch];
      } else if ch == ',' && !quoted {
        var t := Trim(cur);
        if t != "" {
          out := out + [t];
        }
        cur := "";
      } else {
        cur := cur + [ch];
      }
    }
    var t := Trim(cur);
    if t != "" {
      out := out + [t];
    }
  }

  // ---- what a target looks like ---------------------------------------------------------

  /** No comma outside quotes, reading from `quoted`. */
  predicate Whole(t: string, quoted: bool) {
    t == "" ||
    if t[0] == '"' then Whole(t[1..], !quoted) else !(t[0] == ',' && !quoted) && Whole(t[1..], quoted)
  }

  function QuoteAfter(t: string, quoted: bool): bool {
    if t == "" then quoted else QuoteAfter(t[1..], if t[0] == '"' then !quoted else quoted)
  }

  ghost predicate IsTarget(t: string) {
    t != "" && Solid(t) && Whole(t, false)
  }

  /** Targets, of which only the last may leave a quote open. */
  ghost predicate AreTargets(ts: seq<string>) {
    && (forall i :: 0 <= i < |ts| ==> IsTarget(ts[i]))
    && (forall i :: 0 <= i < |ts| - 1 ==> !QuoteAfter(ts[i], false))
  }

  lemma {:induction false} WholeConcat(a: string, b: string, q: bool)
    ensures Whole(a + b, q) <==> Whole(a, q) && Whole(b, QuoteAfter(a, q))
    ensures QuoteAfter(a + b, q) == QuoteAfter(b, QuoteAfter(a, q))
  {
    if a == "" {
      assert a + b == b;
    } else {
      assert (a + b)[1..] == a[1..] + b;
      WholeConcat(a[1..], b, if a[0] == '"' then !q else q);
    }
  }

  lemma {:induction false} SpaceWhole(a: string, q: bool)
    requires AllSpace(a)
    ensures Whole(a, q) && QuoteAfter(a, q) == q
  {
    if a != "" {
      assert IsSpace(a[0]);
      SpaceWhole(a[1..], q);
    }
  }

  /** Trimming a piece keeps it whole and its quotes as they were. */
  lemma TrimWhole(cur: string)
    requires Whole(cur, false)
    ensures Whole(Trim(cur), false) && QuoteAfter(Trim(cur), false) == QuoteAfter(cur, false)
    ensures Trim(cur) == "" ==> !QuoteAfter(cur, false)
  {
    var a, b := TrimParts(cur);
    SpaceWhole(a, false);
    WholeConcat(a + Trim(cur), b, false);
    WholeConcat(a, Trim(cur), false);
    SpaceWhole(b, QuoteAfter(Trim(cur), false));
  }

  lemma KeptTarget(cur: string)
    requires Whole(cur, false)
    ensures forall t :: t in Kept(cur) ==> IsTarget(t) && QuoteAfter(t, false) == QuoteAfter(cur, false)
    ensures Kept(cur) == [] ==> !QuoteAfter(cur, false)
  {
    TrimWhole(cur);
    var a, b := TrimParts(cur);
  }

  lemma TakeChar(cur: string, c: char)
    requires Whole(cur, false) && (c == ',' ==> QuoteAfter(cur, false))
    ensures Whole(cur + [c], false)
            && QuoteAfter(cur + [c], false) == if c == '"' then !QuoteAfter(cur, false) else QuoteAfter(cur, false)
  {
    WholeConcat(cur, [c], false);
    assert [c][1..] == "";
  }

  /** Whatever the text, what comes out are targets; a quote left open is the last one's. */
  lemma {:induction false} SplitGivesTargets(s: string, cur: string, quoted: bool)
    requires Whole(cur, false) && quoted == QuoteAfter(cur, false)
    ensures AreTargets(SplitFrom(s, cur, quoted))
    decreases |s|
  {
    hide IsTarget;
    if s == "" {
      KeptTarget(cur);
    } else if s[0] == ',' && !quoted {
      KeptTarget(cur);
      SplitGivesTargets(s[1..], "", quoted);
      var rest := SplitFrom(s[1..], "", quoted);
      forall i | 0 <= i < |Kept(cur) + rest| ensures IsTarget((Kept(cur) + rest)[i]) {
        if i < |Kept(cur)| { assert Kept(cur)[i] in Kept(cur); } else { assert IsTarget(rest[i - |Kept(cur)|]); }
      }
    } else {
      TakeChar(cur, s[0]);
      SplitGivesTargets(s[1..], cur + [s[0]], if s[0] == '"' then !quoted else quoted);
    }
  }

  // ---- joining and splitting again ---------------------------------------------------------

  /** `join(", ")` */
  function Joined(ts: seq<string>): string {
    if ts == [] then "" else if |ts| == 1 then ts[0] else ts[0] + ", " + Joined(ts[1..])
  }

  /** A whole piece is only collected. */
  lemma {:induction false} SplitWhole(t: string, rest: string, cur: string, quoted: bool)
    requires Whole(t, quoted)
    ensures SplitFrom(t + rest, cur, quoted) == SplitFrom(rest, cur + t, QuoteAfter(t, quoted))
    decreases |t|
  {
    if t == "" {
      assert t + rest == rest && cur + t == cur;
    } else {
      assert (t + rest)[1..] == t[1..] + rest;
      assert cur + [t[0]] + t[1..] == cur + t;
      SplitWhole(t[1..], rest, cur + [t[0]], if t[0] == '"' then !quoted else quoted);
    }
  }

  lemma KeptSpaced(lead: string, t: string)
    requires AllSpace(lead) && IsTarget(t)
    ensures Kept(lead + t) == [t]
  {
    TrimOf(lead, t, "");
    assert lead + t + "" == lead + t;
  }

  lemma {:induction false} SplitJoined(ts: seq<string>, lead: string)
    requires AreTargets(ts) && AllSpace(lead)
    ensures SplitFrom(Joined(ts), lead, false) == ts
    decreases |ts|
  {
    hide IsTarget, SplitFrom, Kept;
    if ts == [] {
      SplitNothing(lead);
    } else {
      var t := ts[0];
      TargetWhole(t);
      KeptSpaced(lead, t);
      if |ts| == 1 {
        assert t + "" == t;
        SplitWhole(t, "", lead, false);
        SplitEnd(lead + t, QuoteAfter(t, false));
      } else {
        var rest := Joined(ts[1..]);
        assert Joined(ts) == t + (", " + rest);
        SplitWhole(t, ", " + rest, lead, false);
        SplitComma(rest, lead + t);
        SplitJoined(ts[1..], " ");
        assert ts == [t] + ts[1..];
      }
    }
  }

  lemma SplitNothing(lead: string)
    requires AllSpace(lead)
    ensures SplitFrom("", lead, false) == []
  {
    TrimOf(lead, "", "");
    assert lead + "" + "" == lead;
  }

  lemma SplitEnd(cur: string, quoted: bool)
    ensures SplitFrom("", cur, quoted) == Kept(cur)
  {
  }

  lemma SplitComma(rest: string, cur: string)
    ensures SplitFrom(", " + rest, cur, false) == Kept(cur) + SplitFrom(rest, " ", false)
  {
    assert (", " + rest)[1..] == " " + rest && (" " + rest)[1..] == rest && "" + [' '] == " ";
  }

  lemma TargetWhole(t: string)
    requires IsTarget(t)
    ensures Whole(t, false)
  {
  }

  /** Splitting, joining and splitting again loses nothing, whatever the text. */
  lemma SplitJoinSplit(s: string)
    ensures SplitFrom(Joined(SplitFrom(s, "", false)), "", false) == SplitFrom(s, "", false)
  {
    SplitGivesTargets(s, "", false);
    SplitJoined(SplitFrom(s, "", false), "");
  }

  // ---- the alias line between the two tasks ---------------------------------------------------

  datatype Alias = Alias(local: string, targets: seq<string>)

  /** One line of a valiases file. */
  function ParseAlias(line: string): Option<Alias> {
    var l := Trim(line);
    var colon := IndexOf(l, ':');
    if l == "" || l[0] == '#' || colon == |l| then None
    else Some(Alias(Trim(l[..colon]), SplitFrom(Trim(l[colon + 1..]), "", false)))
  }

  /** The fact the account task leaves: `local: target, target`. */
  function Fact(a: Alias): string {
    a.local + ": " + Joined(a.targets)
  }

  /** Index of the first `": "`, or the length. */
  function FirstColonSpace(s: string): (i: nat)
    ensures i <= |s| && (i < |s| ==> i + 2 <= |s|)
  {
    if |s| < 2 then |s| else if s[0] == ':' && s[1] == ' ' then 0 else 1 + FirstColonSpace(s[1..])
  }

  /** How the routing task reads it. */
  function ReadFact(fact: string): Option<Alias> {
    var i := FirstColonSpace(fact);
    if i >= |fact| then None else Some(Alias(fact[..i], SplitFrom(fact[i + 2..], "", false)))
  }

  lemma {:induction false} ColonSpaceAt(local: string, rest: string)
    requires NoChar(local, ':')
    ensures FirstColonSpace(local + ": " + rest) == |local|
  {
    if local == "" {
      assert (local + ": " + rest)[0] == ':' && (local + ": " + rest)[1] == ' ';
    } else {
      assert (local + ": " + rest)[1..] == local[1..] + ": " + rest;
      ColonSpaceAt(local[1..], rest);
    }
  }

  /** An alias passes between the tasks unharmed. */
  lemma FactReadBack(line: string)
    ensures ParseAlias(line).Some? ==> ReadFact(Fact(ParseAlias(line).value)) == ParseAlias(line)
  {
    if ParseAlias(line).Some? {
      var l := Trim(line);
      var colon := IndexOf(l, ':');
      var left := l[..colon];
      var a, b := TrimParts(left);
      NoCharConcat(a + Trim(left), b, ':');
      NoCharConcat(a, Trim(left), ':');
      var alias := ParseAlias(line).value;
      ColonSpaceAt(alias.local, Joined(alias.targets));
      var fact := Fact(alias);
      assert fact[..|alias.local|] == alias.local && fact[|alias.local| + 2..] == Joined(alias.targets);
      SplitJoinSplit(Trim(l[colon + 1..]));
    }
  }

  // ---- nothing is lost in a split -------------------------------------------------------------

  /** A piece without commas outside quotes, a comma, and any text: the piece's trim, if it is not
      blank, then the split of that text. */
  lemma SplitAtComma(a: string, b: string)
    requires Whole(a, false) && !QuoteAfter(a, false)
    ensures SplitFrom(a + "," + b, "", false) == (if Trim(a) == "" then [] else [Trim(a)]) + SplitFrom(b, "", false)
  {
    hide Trim;
    assert a + "," + b == a + ("," + b);
    SplitWhole(a, "," + b, "", false);
    assert "" + a == a && ("," + b)[1..] == b;
  }

  /** A text without commas outside quotes is its own trim, or nothing. */
  lemma SplitOne(a: string)
    requires Whole(a, false)
    ensures SplitFrom(a, "", false) == if Trim(a) == "" then [] else [Trim(a)]
  {
    hide Trim;
    SplitWhole(a, "", "", false);
    assert a + "" == a && "" + a == a;
  }

  /** Each piece ends at the first comma outside quotes, and a text without one is one piece: between
      them the two laws above split every text. */
  lemma {:induction false} FirstComma(s: string, quoted: bool) returns (a: string, b: string)
    requires !Whole(s, quoted)
    ensures s == a + "," + b && Whole(a, quoted) && !QuoteAfter(a, quoted)
    decreases |s|
  {
    if s[0] == ',' && !quoted {
      a, b := "", s[1..];
    } else {
      a, b := FirstComma(s[1..], if s[0] == '"' then !quoted else quoted);
      assert s == [s[0]] + s[1..];
      a := [s[0]] + a;
      assert a[1..] + "," + b == s[1..];
    }
  }

  /** A piece is whole exactly when every comma in it stands after an odd number of quotes. */
  lemma {:induction false} WholeMeans(t: string, quoted: bool)
    ensures Whole(t, quoted) <==> forall i :: 0 <= i < |t| && t[i] == ',' ==> QuoteAfter(t[..i], quoted)
    ensures QuoteAfter(t, quoted) == (quoted != (Quotes(t) % 2 == 1))
  {
    if t != "" {
      var q := if t[0] == '"' then !quoted else quoted;
      WholeMeans(t[1..], q);
      forall i | 0 < i < |t| ensures QuoteAfter(t[..i], quoted) == QuoteAfter(t[1..][..i - 1], q) {
        assert t[..i][1..] == t[1..][..i - 1];
      }
      assert forall i :: 0 < i < |t| ==> t[1..][i - 1] == t[i];
      if Whole(t[1..], q) && Whole(t, quoted) {
        forall i | 0 <= i < |t| && t[i] == ',' ensures QuoteAfter(t[..i], quoted) {
          if i > 0 { assert t[1..][i - 1] == ','; }
        }
      }
      if forall i :: 0 <= i < |t| && t[i] == ',' ==> QuoteAfter(t[..i], quoted) {
        forall k | 0 <= k < |t[1..]| && t[1..][k] == ',' ensures QuoteAfter(t[1..][..k], q) { assert t[k + 1] == ','; }
      }
    }
  }

  function Quotes(t: string): nat {
    if t == "" then 0 else (if t[0] == '"' then 1 else 0) + Quotes(t[1..])
  }

  /** The lines of a valiases file: blank ones, comments and those without a colon say nothing, the
      others a local part and the targets after the first colon. */
  lemma AliasLine(local: string, rest: string)
    requires NoChar(local, ':')
    ensures var l := local + ":" + rest;
            Trim(local) == "" || Trim(local)[0] != '#' ==>
              ParseAlias(l) == Some(Alias(Trim(local), SplitFrom(Trim(rest), "", false)))
    ensures forall l :: Trim(l) == "" || Trim(l)[0] == '#' || NoChar(Trim(l), ':') ==> ParseAlias(l) == None
  {
    hide Trim, SplitFrom;
    if Trim(local) == "" || Trim(local)[0] != '#' { AliasParts(local, rest); }
    forall l | NoChar(Trim(l), ':') ensures ParseAlias(l) == None { assert IndexOf(Trim(l), ':') == |Trim(l)|; }
  }

  lemma AliasParts(local: string, rest: string)
    requires NoChar(local, ':') && (Trim(local) == "" || Trim(local)[0] != '#')
    ensures ParseAlias(local + ":" + rest) == Some(Alias(Trim(local), SplitFrom(Trim(rest), "", false)))
  {
    hide Trim, SplitFrom, Kept, IsSpace;
    var left, right := AliasTrim(local, rest);
    IndexOfFirst(left, ':', right);
    var line := left + ":" + right;
    assert line[..|left|] == left && line[|left| + 1..] == right;
  }

  /** A trimmed alias line: what stands before its first colon and after it. */
  lemma AliasTrim(local: string, rest: string) returns (left: string, right: string)
    requires NoChar(local, ':') && (Trim(local) == "" || Trim(local)[0] != '#')
    ensures Trim(local + ":" + rest) == left + ":" + right && NoChar(left, ':')
    ensures Trim(left) == Trim(local) && Trim(right) == Trim(rest) && (left + ":" + right)[0] != '#'
  {
    hide Trim, IsSpace;
    var a, b := TrimParts(local);
    var c, d := TrimParts(rest);
    var k, m := Trim(local), Trim(rest);
    left, right := if k == "" then "" else k + b, if m == "" then "" else c + m;
    var line, head, tail := left + ":" + right, if k == "" then a + b else a, if m == "" then c + d else d;
    ColonSolid();
    assert local + ":" + rest == head + line + tail;
    assert line[0] == if k == "" then ':' else k[0];
    assert line[|line| - 1] == if m == "" then ':' else m[|m| - 1];
    TrimOf(head, line, tail);
    assert local == head + left;
    NoCharConcat(head, left, ':');
    TrimLeft(k, b);
    TrimRight(c, m);
  }

  lemma ColonSolid()
    ensures !IsSpace(':')
  {
  }

  lemma TrimLeft(k: string, b: string)
    requires Solid(k) && AllSpace(b)
    ensures Trim(if k == "" then "" else k + b) == k
  {
    if k == "" {
      TrimSolid("");
    } else {
      TrimOf("", k, b);
      assert "" + k + b == k + b;
    }
  }

  lemma TrimRight(c: string, m: string)
    requires Solid(m) && AllSpace(c)
    ensures Trim(if m == "" then "" else c + m) == m
  {
    if m == "" {
      TrimSolid("");
    } else {
      TrimOf(c, m, "");
      assert c + m + "" == c + m;
    }
  }

  /** The fact's text: the local part, a colon and a space, the targets with a comma and a space between. */
  lemma FactText(local: string, ts: seq<string>, t: string)
    ensures Fact(Alias(local, [t])) == local + ": " + t && Fact(Alias(local, [])) == local + ": "
    ensures ts != [] ==> Fact(Alias(local, ts + [t])) == Fact(Alias(local, ts)) + ", " + t
  {
    if ts != [] { JoinedMore(ts, t); }
  }

  lemma {:induction false} JoinedMore(ts: seq<string>, t: string)
    requires ts != []
    ensures Joined(ts + [t]) == Joined(ts) + ", " + t
  {
    if |ts| == 1 {
      assert (ts + [t])[1..] == [t];
    } else {
      assert (ts + [t])[1..] == ts[1..] + [t];
      JoinedMore(ts[1..], t);
    }
  }
}
