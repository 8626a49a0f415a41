/** Replacing the TXT records at a name (acctdns.rs): the zone is dumped, its
    matching lines removed one by one from the highest number down, each removal
    shifting the lines below it, and the new record added. */
module ZoneTxt {
  import opened Options
  import opened Text

  /** One line of the zone: a record, or anything else the dump does not list. */
  datatype Line = Record(name: string, kind: string, value: string) | OtherLine(text: string)

  function TrimDots(s: string): string {
    if s != "" && s[|s| - 1] == '.' then TrimDots(s[..|s| - 1]) else s
  }

  /** A TXT record at `name`, compared without case and trailing dots. */
  predicate Matches(l: Line, name: string) {
    l.Record? && LowerAll(l.kind) == "txt" && LowerAll(TrimDots(l.name)) == LowerAll(TrimDots(name))
  }

  /** A record of the dump with its line number, when it has one that fits. */
  datatype Dumped = Dumped(line: Option<nat>, record: Line)

  /** Line numbers start at 1. */
  ghost predicate IsDump(dump: seq<Dumped>, zone: seq<Line>) {
    && (forall d :: d in dump && d.line.Some? ==> 1 <= d.line.value <= |zone| && d.record == zone[d.line.value - 1])
    && (forall n :: 1 <= n <= |zone| && zone[n - 1].Record? ==> Dumped(Some(n), zone[n - 1]) in dump)
  }

  ghost predicate Descending(s: seq<nat>) {
    forall i, j :: 0 <= i < j < |s| ==> s[i] > s[j]
  }

  /** `n` put into a descending list without repetition. */
  function Placed(s: seq<nat>, n: nat): (r: seq<nat>)
    ensures forall m :: m in r <==> m == n || m in s
  {
    if s == [] then [n]
    else if s[0] == n then s
    else if n > s[0] then [n] + s
    else
      assert s == [s[0]] + s[1..];
      [s[0]] + Placed(s[1..], n)
  }

  lemma {:induction false} PlacedDescending(s: seq<nat>, n: nat)
    requires Descending(s)
    ensures Descending(Placed(s, n))
  {
    if s != [] && n < s[0] {
      PlacedDescending(s[1..], n);
      var t := Placed(s[1..], n);
      forall j | 0 <= j < |t| ensures s[0] > t[j] { assert t[j] in t; }
    }
  }

  /** The line numbers of the TXT records at `name`, highest first, each once. */
  method DmarcZoneLines(dump: seq<Dumped>, name: string) returns (lines: seq<nat>)
    ensures Descending(lines)
    ensures forall n :: n in lines <==> exists d :: d in dump && d.line == Some(n) && Matches(d.record, name)
  {
    hide Matches;
    lines := [];
    for i := 0 to |dump|
      invariant Descending(lines)
      invariant forall n :: n in lines <==> exists d :: d in dump[..i] && d.line == Some(n) && Matches(d.record, name)
    {
      var d := dump[i];
      assert dump[..i + 1] == dump[..i] + [d];
      if Matches(d.record, name) && d.line.Some? {
        PlacedDescending(lines, d.line.value);
        lines := Placed(lines, d.line.value);
      }
    }
    assert dump[..|dump|] == dump;
  }

  /** The record added: `name.` TXT. */
  function NewRecord(name: string, value: string): Line {
    Record(name + ".", "TXT", value)
  }

  // ---- removal --------------------------------------------------------------------------

  /** Removing line `n` moves every later line up. */
  function Removed(zone: seq<Line>, n: nat): seq<Line>
    requires 1 <= n <= |zone|
  {
    zone[..n - 1] + zone[n..]
  }

  /** The lines that are not TXT records at `name`, in order. */
  function Kept(zone: seq<Line>, name: string): seq<Line> {
    if zone == [] then [] else (if Matches(zone[0], name) then [] else [zone[0]]) + Kept(zone[1..], name)
  }

  lemma {:induction false} KeptConcat(a: seq<Line>, b: seq<Line>, name: string)
    ensures Kept(a + b, name) == Kept(a, name) + Kept(b, name)
  {
    hide Matches;
    if a == [] {
      assert a + b == b;
    } else {
      assert (a + b)[1..] == a[1..] + b;
      KeptConcat(a[1..], b, name);
    }
  }

  lemma {:induction false} KeptAll(zone: seq<Line>, name: string)
    requires forall i :: 0 <= i < |zone| ==> !Matches(zone[i], name)
    ensures Kept(zone, name) == zone
  {
    hide Matches;
    if zone != [] { KeptAll(zone[1..], name); }
  }

  /** `rest` numbers exactly the matching lines of the zone. */
  ghost predicate Numbers(rest: seq<nat>, zone: seq<Line>, name: string) {
    forall n :: n in rest <==> 1 <= n <= |zone| && Matches(zone[n - 1], name)
  }

  lemma HighestFirst(rest: seq<nat>)
    requires Descending(rest) && rest != []
    ensures forall m :: m in rest ==> m <= rest[0]
  {
  }

  /** A matching line after a removal had a number before it. */
  lemma NumberedBefore(rest: seq<nat>, zone: seq<Line>, name: string, n: nat, m: nat)
    requires Numbers(rest, zone, name) && 1 <= n <= |zone|
    requires 1 <= m <= |Removed(zone, n)| && Matches(Removed(zone, n)[m - 1], name)
    ensures if m < n then m in rest else m + 1 in rest
  {
    hide Matches;
    assert Removed(zone, n)[m - 1] == zone[if m < n then m - 1 else m];
  }

  /** Removing the highest matching line leaves the lower numbers right. */
  lemma RemoveHighest(rest: seq<nat>, zone: seq<Line>, name: string)
    requires Descending(rest) && Numbers(rest, zone, name) && rest != []
    ensures 1 <= rest[0] <= |zone|
    ensures Numbers(rest[1..], Removed(zone, rest[0]), name) && Descending(rest[1..])
    ensures Kept(Removed(zone, rest[0]), name) == Kept(zone, name)
  {
    hide Matches;
    var n := rest[0];
    assert n in rest;
    var after := Removed(zone, n);
    HighestFirst(rest);
    forall m ensures m in rest[1..] <==> 1 <= m <= |after| && Matches(after[m - 1], name) {
      assert rest == [n] + rest[1..];
      if m in rest[1..] {
        var k :| 1 <= k < |rest| && rest[k] == m;
        assert rest[0] > rest[k];
        assert m in rest && after[m - 1] == zone[m - 1];
      }
      if 1 <= m <= |after| && Matches(after[m - 1], name) {
        NumberedBefore(rest, zone, name, n, m);
      }
    }
    KeptWithout(zone, n, name);
  }

  lemma KeptWithout(zone: seq<Line>, n: nat, name: string)
    requires 1 <= n <= |zone| && Matches(zone[n - 1], name)
    ensures Kept(Removed(zone, n), name) == Kept(zone, name)
  {
    hide Matches;
    var l := zone[n - 1];
    assert zone == zone[..n - 1] + ([l] + zone[n..]);
    KeptConcat(zone[..n - 1], [l] + zone[n..], name);
    KeptConcat([l], zone[n..], name);
    KeptConcat(zone[..n - 1], zone[n..], name);
    assert [l][1..] == [];
  }

  /** The zone file and the two calls that change it. */
  class Zone {
    var lines: seq<Line>

    constructor (lines: seq<Line>)
      ensures this.lines == lines
    {
      this.lines := lines;
    }

    method RemoveRecord(n: nat)
      requires 1 <= n <= |lines|
      modifies this
      ensures lines == Removed(old(lines), n)
    {
      lines := lines[..n - 1] + lines[n..];
    }

    method AddRecord(record: Line)
      modifies this
      ensures lines == old(lines) + [record]
    {
      lines := lines + [record];
    }

    /** Afterwards the zone has exactly the requested TXT record at the name; every
        other line is still there, in order. */
    method InstallTxt(dump: seq<Dumped>, name: string, value: string)
      requires IsDump(dump, lines)
      modifies this
      ensures lines == Kept(old(lines), name) + [Record(name + ".", "TXT", value)]
    {
      hide Matches, Kept, Removed, Descending;
      var numbers := DmarcZoneLines(dump, name);
      NumbersOfDump(dump, lines, name, numbers);
      for i := 0 to |numbers|
        invariant Descending(numbers[i..]) && Numbers(numbers[i..], lines, name)
        invariant Kept(lines, name) == Kept(old(lines), name)
      {
        RemoveHighest(numbers[i..], lines, name);
        assert numbers[i..][1..] == numbers[i + 1..];
        RemoveRecord(numbers[i]);
      }
      forall k | 0 <= k < |lines| ensures !Matches(lines[k], name) {
        assert k + 1 !in numbers[|numbers|..];
      }
      KeptAll(lines, name);
      AddRecord(NewRecord(name, value));
    }
  }

  lemma NumbersOfDump(dump: seq<Dumped>, zone: seq<Line>, name: string, numbers: seq<nat>)
    requires IsDump(dump, zone)
    requires forall n :: n in numbers <==> exists d :: d in dump && d.line == Some(n) && Matches(d.record, name)
    ensures Numbers(numbers, zone, name)
    ensures numbers[0..] == numbers
  {
    forall n ensures n in numbers <==> 1 <= n <= |zone| && Matches(zone[n - 1], name) {
      if 1 <= n <= |zone| && Matches(zone[n - 1], name) {
        assert Dumped(Some(n), zone[n - 1]) in dump;
      }
    }
  }

  lemma {:induction false} KeptNone(zone: seq<Line>, name: string)
    ensures forall i :: 0 <= i < |Kept(zone, name)| ==> !Matches(Kept(zone, name)[i], name)
  {
    hide Matches;
    if zone != [] { KeptNone(zone[1..], name); }
  }

  /** How many lines are TXT records at `name`. */
  function Count(zone: seq<Line>, name: string): nat {
    if zone == [] then 0 else (if Matches(zone[0], name) then 1 else 0) + Count(zone[1..], name)
  }

  lemma {:induction false} CountConcat(a: seq<Line>, b: seq<Line>, name: string)
    ensures Count(a + b, name) == Count(a, name) + Count(b, name)
  {
    hide Matches;
    if a == [] {
      assert a + b == b;
    } else {
      assert (a + b)[1..] == a[1..] + b;
      CountConcat(a[1..], b, name);
    }
  }

  lemma {:induction false} CountNone(zone: seq<Line>, name: string)
    requires forall i :: 0 <= i < |zone| ==> !Matches(zone[i], name)
    ensures Count(zone, name) == 0
  {
    hide Matches;
    if zone != [] { CountNone(zone[1..], name); }
  }

  /** The result holds exactly one TXT record at the name, the one asked for, and all
      the lines that were not such records as they were. */
  lemma ExactlyOne(zone: seq<Line>, name: string, value: string)
    ensures var after := Kept(zone, name) + [NewRecord(name, value)];
            && Count(after, name) == 1 && after[|after| - 1] == NewRecord(name, value)
            && Kept(after, name) == Kept(zone, name)
  {
    var added := NewRecord(name, value);
    KeptNone(zone, name);
    CountNone(Kept(zone, name), name);
    CountConcat(Kept(zone, name), [added], name);
    KeptConcat(Kept(zone, name), [added], name);
    KeptAll(Kept(zone, name), name);
    assert LowerAll("TXT") == "txt";
    assert (name + ".")[..|name|] == name;
    assert Matches(added, name) && [added][1..] == [];
  }

  predicate NoDotAtEnd(s: string) {
    s != "" ==> s[|s| - 1] != '.'
  }

  function Dots(n: nat): (s: string)
    ensures |s| == n && forall i :: 0 <= i < n ==> s[i] == '.'
  {
    seq(n, i => '.')
  }

  lemma {:induction false} DotsTrimmed(a: string, n: nat)
    requires NoDotAtEnd(a)
    ensures TrimDots(a + Dots(n)) == a
  {
    if n == 0 {
      assert a + Dots(0) == a;
    } else {
      assert (a + Dots(n))[..|a| + n - 1] == a + Dots(n - 1);
      DotsTrimmed(a, n - 1);
    }
  }

  /** A line is replaced when it is a TXT record, its kind and its name read without regard to case,
      and the names without the dots at their ends. */
  lemma MatchesMeans(a: string, m: nat, kind: string, value: string, b: string, n: nat)
    requires NoDotAtEnd(a) && NoDotAtEnd(b)
    ensures Matches(Record(a + Dots(m), kind, value), b + Dots(n)) <==>
              |kind| == 3 && kind[0] in "tT" && kind[1] in "xX" && kind[2] in "tT" && LowerAll(a) == LowerAll(b)
    ensures forall l: Line :: l.OtherLine? ==> !Matches(l, b)
  {
    DotsTrimmed(a, m);
    DotsTrimmed(b, n);
    var low := LowerAll(kind);
    assert low == "txt" <==> |kind| == 3 && low[0] == 't' && low[1] == 'x' && low[2] == 't';
    assert |kind| == 3 ==> low[0] == Lower(kind[0]) && low[1] == Lower(kind[1]) && low[2] == Lower(kind[2]);
  }
}
