/** The bounded history of one configuration file (confsave.rs): stamped copies
    in a directory, whose order is nothing but the string order of their names. */
module History {
  import opened Options
  import opened StringOrder
  import opened Decimal
  import opened CivilText

  /** How many history copies to keep per file. */
  const KEEP := 50

  /** A history directory: copy name to copied text. */
  type Files = map<string, string>

  /** One copy taken: when, which of that second, under what name, and what. */
  datatype Copy = Copy(secs: nat, number: nat, name: string, text: string)

  /** Later copies of one second carry a number. */
  function Suffix(number: nat): string {
    if number == 0 then "" else "-" + Padded(number, 3)
  }

  function CopyName(secs: nat, number: nat): string {
    Stamp(secs) + Suffix(number)
  }

  /** The first copy of a second is named by the stamp alone, the next ones carry three digits. */
  lemma NameMeans(secs: nat, number: nat)
    requires number < 1000
    ensures CopyName(secs, 0) == Stamp(secs)
    ensures number > 0 ==>
              var rest := CopyName(secs, number)[|Stamp(secs)|..];
              && CopyName(secs, number)[..|Stamp(secs)|] == Stamp(secs)
              && |rest| == 4 && rest[0] == '-' && AllDigits(rest[1..]) && Value(rest[1..]) == number
  {
    hide Stamp, Padded, Value;
    assert Pow10(3) == 1000;
    PaddedValue(number, 3);
    if number > 0 { assert Suffix(number)[1..] == Padded(number, 3); }
  }

  // ---- the log a directory is the end of ----------------------------------------

  function CopiesAt(log: seq<Copy>, secs: nat): nat {
    if log == [] then 0
    else CopiesAt(log[..|log| - 1], secs) + (if log[|log| - 1].secs == secs then 1 else 0)
  }

  /** The clock may take a copy now: it has not gone back, it is before the year
      10000, and this second has fewer than 1000 copies. */
  ghost predicate MayCopy(log: seq<Copy>, now: nat) {
    && now < STAMP_LIMIT
    && (forall i :: 0 <= i < |log| ==> log[i].secs <= now)
    && CopiesAt(log, now) < 1000
  }

  /** The copy `c` is the one after `log`: numbered within its second, and named so. */
  ghost predicate Follows(c: Copy, log: seq<Copy>) {
    MayCopy(log, c.secs) && c.number == CopiesAt(log, c.secs) && c.name == CopyName(c.secs, c.number)
  }

  /** Every copy followed the ones before it. */
  ghost predicate Regular(log: seq<Copy>) {
    log == [] || (Regular(log[..|log| - 1]) && Follows(log[|log| - 1], log[..|log| - 1]))
  }

  function Newest(log: seq<Copy>): seq<Copy> {
    if |log| <= KEEP then log else log[|log| - KEEP..]
  }

  function Names(log: seq<Copy>): (names: seq<string>)
    ensures |names| == |log|
    ensures forall i :: 0 <= i < |log| ==> names[i] == log[i].name
  {
    seq(|log|, i requires 0 <= i < |log| => log[i].name)
  }

  /** `files` holds the `KEEP` newest copies of `log` and nothing else. */
  ghost predicate Holds(files: Files, log: seq<Copy>) {
    && (forall n :: n in files <==> n in Names(Newest(log)))
    && (forall c :: c in Newest(log) ==> c.name in files && files[c.name] == c.text)
  }

  // ---- names sort by age ---------------------------------------------------------

  lemma {:induction false} RegularAt(log: seq<Copy>, i: nat)
    requires Regular(log) && i < |log|
    ensures log[i].secs < STAMP_LIMIT && log[i].number < 1000
    ensures log[i].name == CopyName(log[i].secs, log[i].number)
    ensures log[i].number < CopiesAt(log, log[i].secs)
  {
    hide CopyName;
    if i < |log| - 1 { RegularAt(log[..|log| - 1], i); }
  }

  lemma CopyOrder(s: nat, m: nat, t: nat, n: nat)
    requires s < STAMP_LIMIT && t < STAMP_LIMIT && m < 1000 && n < 1000
    requires s < t || (s == t && m < n)
    ensures Less(CopyName(s, m), CopyName(t, n))
  {
    StampOrder(s, t);
    SuffixOrder(m, n);
    FieldOrder(Stamp(s), Stamp(t), Suffix(m), Suffix(n));
  }

  lemma SuffixOrder(m: nat, n: nat)
    requires m < 1000 && n < 1000
    ensures Less(Suffix(m), Suffix(n)) <==> m < n
  {
    if m > 0 && n > 0 {
      assert Pow10(3) == 1000;
      PaddedOrder(m, n, 3);
      FieldOrder("-", "-", Padded(m, 3), Padded(n, 3));
    }
  }

  /** A copy's name lies above the name of every copy before it, pruned or not. */
  lemma FollowsAbove(c: Copy, log: seq<Copy>, i: nat)
    requires Regular(log) && Follows(c, log) && i < |log|
    ensures Less(log[i].name, c.name)
  {
    RegularAt(log, i);
    CopyOrder(log[i].secs, log[i].number, c.secs, c.number);
  }

  lemma {:induction false} NamesAscend(log: seq<Copy>)
    requires Regular(log)
    ensures Ascending(Names(log))
  {
    hide CopyName, Less, MayCopy, CopiesAt;
    if log != [] {
      var front := log[..|log| - 1];
      NamesAscend(front);
      forall i, j | 0 <= i < j < |log| ensures Less(Names(log)[i], Names(log)[j]) {
        if j == |log| - 1 { FollowsAbove(log[j], front, i); } else { assert Less(Names(front)[i], Names(front)[j]); }
      }
    }
  }

  // ---- the next stamp --------------------------------------------------------------

  predicate StartsWith(s: string, prefix: string) {
    prefix <= s
  }

  /** The number a name claims within the second of `base`. */
  function CopyNumber(name: string, base: string): nat
    requires StartsWith(name, base)
  {
    var rest := name[|base|..];
    if rest != "" && rest[0] == '-' then
      match ParseUnsigned(rest[1..], U32_MAX)
      case Some(n) => n
      case None => 0
    else 0
  }

  /** The stamp a copy gets in a directory that holds `files`: the second's own
      stamp, or one number above the highest that second has there. */
  ghost predicate IsNextStamp(files: Files, base: string, stamp: string) {
    if forall n :: n in files ==> !StartsWith(n, base) then stamp == base
    else exists n :: n in files && HighestOf(files, base, n) && stamp == base + Suffix(CopyNumber(n, base) + 1)
  }

  ghost predicate HighestOf(files: Files, base: string, n: string) {
    && StartsWith(n, base)
    && forall m :: m in files && StartsWith(m, base) ==> CopyNumber(m, base) <= CopyNumber(n, base)
  }

  method NextStamp(files: Files, base: string) returns (stamp: string)
    ensures IsNextStamp(files, base, stamp)
  {
    var next: Option<nat> := None;
    var todo := files.Keys;
    ghost var best := "";
    while todo != {}
      invariant todo <= files.Keys
      invariant next.None? ==> forall n :: n in files && n !in todo ==> !StartsWith(n, base)
      invariant next.Some? ==> best in files && StartsWith(best, base) && next.value == CopyNumber(best, base) + 1
      invariant next.Some? ==> forall n :: n in files && n !in todo && StartsWith(n, base) ==>
                CopyNumber(n, base) < next.value
      decreases |todo|
    {
      var n :| n in todo;
      todo := todo - {n};
      if StartsWith(n, base) {
        var k := CopyNumber(n, base) + 1;
        if next.None? || k > next.value {
          next := Some(k);
          best := n;
        }
      }
    }
    match next
    case None => stamp := base;
    case Some(k) =>
      assert HighestOf(files, base, best);
      stamp := base + Suffix(k);
  }

  lemma NumberOfSuffix(base: string, number: nat)
    requires number < 1000
    ensures StartsWith(base + Suffix(number), base)
    ensures CopyNumber(base + Suffix(number), base) == number
  {
    var rest := Suffix(number);
    assert (base + rest)[|base|..] == rest;
    if number > 0 {
      assert rest[1..] == Padded(number, 3);
      ParsePadded(number, 3, U32_MAX);
    }
  }

  lemma NumberOfName(secs: nat, number: nat, now: nat)
    requires secs < STAMP_LIMIT && now < STAMP_LIMIT && number < 1000
    ensures StartsWith(CopyName(secs, number), Stamp(now)) <==> secs == now
    ensures secs == now ==> CopyNumber(CopyName(secs, number), Stamp(now)) == number
  {
    StampOrder(secs, now);
    NumberOfSuffix(Stamp(secs), number);
    PrefixOfName(Stamp(secs), Stamp(now), Suffix(number));
  }

  lemma PrefixOfName(s: string, t: string, rest: string)
    requires |s| == |t|
    ensures StartsWith(s + rest, t) <==> s == t
  {
    assert (s + rest)[..|s|] == s;
  }

  lemma NameOfFile(files: Files, log: seq<Copy>, n: string) returns (i: nat)
    requires Holds(files, log) && n in files
    ensures i < |log| && log[i].name == n
  {
    var kept := Newest(log);
    assert n in Names(kept);
    var k :| 0 <= k < |kept| && Names(kept)[k] == n;
    i := |log| - |kept| + k;
  }

  /** The names that start with `base` are those of the second `now`, and their numbers tell which copy. */
  ghost predicate NumbersBy(log: seq<Copy>, base: string, now: nat) {
    forall i :: 0 <= i < |log| ==>
      && (StartsWith(log[i].name, base) <==> log[i].secs == now)
      && (log[i].secs == now ==> CopyNumber(log[i].name, base) == log[i].number < CopiesAt(log, now))
  }

  lemma NumbersByStamp(log: seq<Copy>, now: nat)
    requires Regular(log) && now < STAMP_LIMIT
    ensures NumbersBy(log, Stamp(now), now)
  {
    hide Stamp, CopyName, CopyNumber, StartsWith;
    forall i | 0 <= i < |log|
      ensures StartsWith(log[i].name, Stamp(now)) <==> log[i].secs == now
      ensures log[i].secs == now ==> CopyNumber(log[i].name, Stamp(now)) == log[i].number < CopiesAt(log, now)
    {
      RegularAt(log, i);
      NumberOfName(log[i].secs, log[i].number, now);
    }
  }

  /** In a regular history the next stamp is the next number of its second. */
  lemma NextNumber(files: Files, log: seq<Copy>, now: nat, stamp: string)
    requires Regular(log) && Holds(files, log) && MayCopy(log, now)
    requires IsNextStamp(files, Stamp(now), stamp)
    ensures stamp == CopyName(now, CopiesAt(log, now))
  {
    NumbersByStamp(log, now);
    NumberedStamp(files, log, now, stamp, Stamp(now));
  }

  lemma NumberedStamp(files: Files, log: seq<Copy>, now: nat, stamp: string, base: string)
    requires Regular(log) && Holds(files, log) && MayCopy(log, now) && NumbersBy(log, base, now)
    requires IsNextStamp(files, base, stamp)
    ensures stamp == base + Suffix(CopiesAt(log, now))
  {
    hide CopyName, CopyNumber, StartsWith, CopiesAt, Regular;
    if log != [] && log[|log| - 1].secs == now {
      var highest := LastIsHighest(files, log, now, base);
      HighestDecides(files, base, stamp, highest);
    } else {
      NoneAt(log, now);
      forall n | n in files ensures !StartsWith(n, base) {
        var i := NameOfFile(files, log, n);
      }
    }
  }

  lemma LastIsHighest(files: Files, log: seq<Copy>, now: nat, base: string) returns (highest: string)
    requires Regular(log) && Holds(files, log) && NumbersBy(log, base, now)
    requires log != [] && log[|log| - 1].secs == now
    ensures highest in files && HighestOf(files, base, highest)
    ensures CopyNumber(highest, base) + 1 == CopiesAt(log, now)
  {
    hide CopyName, CopyNumber, MayCopy, StartsWith;
    var last := log[|log| - 1];
    highest := last.name;
    assert Follows(last, log[..|log| - 1]);
    assert last == Newest(log)[|Newest(log)| - 1];
    forall n | n in files && StartsWith(n, base) ensures CopyNumber(n, base) < CopiesAt(log, now) {
      var i := NameOfFile(files, log, n);
    }
  }

  lemma HighestDecides(files: Files, base: string, stamp: string, highest: string)
    requires IsNextStamp(files, base, stamp)
    requires highest in files && HighestOf(files, base, highest)
    ensures stamp == base + Suffix(CopyNumber(highest, base) + 1)
  {
    var n :| n in files && HighestOf(files, base, n) && stamp == base + Suffix(CopyNumber(n, base) + 1);
    assert CopyNumber(n, base) <= CopyNumber(highest, base) <= CopyNumber(n, base);
  }

  lemma {:induction false} NoneAt(log: seq<Copy>, now: nat)
    requires Regular(log)
    requires forall i :: 0 <= i < |log| ==> log[i].secs <= now
    requires log != [] ==> log[|log| - 1].secs != now
    ensures CopiesAt(log, now) == 0
    ensures forall i :: 0 <= i < |log| ==> log[i].secs < now
  {
    hide CopyName;
    if log != [] {
      assert Follows(log[|log| - 1], log[..|log| - 1]);
      assert forall i :: 0 <= i < |log| - 1 ==> log[..|log| - 1][i] == log[i];
      NoneAt(log[..|log| - 1], now);
    }
  }

  // ---- sorting, pruning, listing -----------------------------------------------------

  ghost predicate IsListing(names: seq<string>, files: Files) {
    Ascending(names) && forall n :: n in names <==> n in files
  }

  method Sorted(files: Files) returns (names: seq<string>)
    ensures IsListing(names, files)
  {
    names := [];
    var todo := files.Keys;
    while todo != {}
      invariant todo <= files.Keys && Ascending(names)
      invariant forall n :: n in names <==> n in files && n !in todo
      decreases |todo|
    {
      var n :| n in todo;
      todo := todo - {n};
      InsertedAscending(names, n);
      names := Inserted(names, n);
    }
  }

  function LastNames(names: seq<string>): seq<string> {
    if |names| <= KEEP then names else names[|names| - KEEP..]
  }

  /** `kept` is the part of `files` under the `KEEP` highest names. */
  ghost predicate IsPruned(files: Files, kept: Files) {
    && (forall n :: n in kept ==> n in files && kept[n] == files[n])
    && (forall names :: IsListing(names, files) ==> forall n :: n in kept <==> n in LastNames(names))
  }

  /** Drops the lowest names until `KEEP` are left. */
  method Prune(files: Files) returns (kept: Files)
    ensures IsPruned(files, kept)
  {
    var names := Sorted(files);
    ghost var all := names;
    ghost var k := 0;
    kept := files;
    while |names| > KEEP
      invariant 0 <= k <= |all| && names == all[k..]
      invariant k > 0 ==> |names| >= KEEP
      invariant forall n :: n in kept <==> n in names
      invariant forall n :: n in kept ==> n in files && kept[n] == files[n]
    {
      AscendingDistinct(all);
      FirstOnce(names);
      kept := kept - {names[0]};
      names := names[1..];
      k := k + 1;
    }
    assert names == LastNames(all);
    forall other | IsListing(other, files) ensures other == all { AscendingUnique(other, all); }
  }

  lemma FirstOnce(names: seq<string>)
    requires names != [] && forall i, j :: 0 <= i < j < |names| ==> names[i] != names[j]
    ensures forall n :: n in names[1..] <==> n in names && n != names[0]
  {
    assert names == [names[0]] + names[1..];
  }

  lemma AscendingFrom(names: seq<string>, k: nat)
    requires Ascending(names) && k <= |names|
    ensures Ascending(names[k..])
  {
    hide Less;
  }

  lemma NamesFrom(log: seq<Copy>, k: nat)
    requires k <= |log|
    ensures Names(log[k..]) == Names(log)[k..]
  {
  }

  /** Before pruning the directory holds the newest copies and the new one. */
  lemma GrownListing(files: Files, log: seq<Copy>, c: Copy)
    requires Holds(files, log) && Ascending(Names(log + [c]))
    ensures IsListing(Names(Newest(log) + [c]), files[c.name := c.text])
  {
    hide Less;
    var k := |log| - |Newest(log)|;
    assert Newest(log) + [c] == (log + [c])[k..];
    NamesFrom(log + [c], k);
    AscendingFrom(Names(log + [c]), k);
    assert Names(Newest(log) + [c]) == Names(Newest(log)) + [c.name];
  }

  /** The names that stay, when one copy more is pruned, are those of the longer log's newest. */
  lemma LastOfGrown(log: seq<Copy>, c: Copy)
    ensures LastNames(Names(Newest(log) + [c])) == Names(Newest(log + [c]))
  {
    var grown := Newest(log) + [c];
    if |log| >= KEEP {
      assert grown[1..] == Newest(log + [c]);
      NamesFrom(grown, 1);
    } else {
      assert grown == log + [c];
    }
  }

  lemma NewestOfGrown(log: seq<Copy>, c: Copy, d: Copy)
    requires Ascending(Names(log + [c])) && d in Newest(log + [c]) && d != c
    ensures d in Newest(log) && d.name != c.name
  {
    hide Less;
    var more := log + [c];
    var k :| 0 <= k < |more| && more[k] == d && k >= |more| - |Newest(more)|;
    assert k < |log| && log[k] == d;
    assert log[k] == Newest(log)[k - (|log| - |Newest(log)|)];
    assert Less(Names(more)[k], Names(more)[|log|]);
    LessIrreflexive(c.name);
  }

  /** A new copy, then pruning: the `KEEP` newest of the longer log. */
  lemma PrunedHolds(files: Files, log: seq<Copy>, c: Copy, kept: Files)
    requires Holds(files, log) && Ascending(Names(log + [c]))
    requires IsPruned(files[c.name := c.text], kept)
    ensures Holds(kept, log + [c])
  {
    hide Ascending, Newest, LastNames;
    var newest := Newest(log + [c]);
    GrownListing(files, log, c);
    LastOfGrown(log, c);
    forall d | d in newest ensures d.name in kept && kept[d.name] == d.text {
      var i :| 0 <= i < |newest| && newest[i] == d;
      assert Names(newest)[i] == d.name;
      if d != c { NewestOfGrown(log, c, d); }
    }
  }

  /** One backup in a regular history keeps it regular and its directory pruned to the newest. */
  lemma BackupKeeps(files: Files, log: seq<Copy>, c: Copy, kept: Files)
    requires Regular(log) && Holds(files, log) && Follows(c, log)
    requires IsPruned(files[c.name := c.text], kept)
    ensures Regular(log + [c]) && Holds(kept, log + [c])
    ensures forall n :: n in files ==> Less(n, c.name)
    ensures c.name in kept && kept[c.name] == c.text
  {
    hide CopyName, Less, MayCopy, CopiesAt, IsPruned;
    var more := log + [c];
    assert more[..|more| - 1] == log;
    NamesAscend(more);
    PrunedHolds(files, log, c, kept);
    assert c == Newest(more)[|Newest(more)| - 1];
    forall n | n in files ensures Less(n, c.name) {
      var i := NameOfFile(files, log, n);
      FollowsAbove(c, log, i);
    }
  }

  /** A sorted directory listing is the newest copies, oldest of them first. */
  lemma ListingIsNewest(files: Files, log: seq<Copy>, names: seq<string>)
    requires Regular(log) && Holds(files, log) && IsListing(names, files)
    ensures names == Names(Newest(log))
  {
    hide Less, Regular, Ascending;
    NamesAscend(log);
    var k := |log| - |Newest(log)|;
    assert Newest(log) == log[k..];
    NamesFrom(log, k);
    AscendingFrom(Names(log), k);
    AscendingUnique(names, Names(Newest(log)));
  }

  // ---- which copies are left -----------------------------------------------------------

  ghost function Above(files: Files, name: string): set<string> {
    set n | n in files && Less(name, n)
  }

  /** Fewer than `KEEP` copies lie above this one. */
  ghost predicate Room(files: Files, name: string) {
    |Above(files, name)| < KEEP
  }

  lemma {:induction false} ListingExists(files: Files, todo: set<string>) returns (names: seq<string>)
    requires todo <= files.Keys
    ensures Ascending(names) && forall n :: n in names <==> n in todo
    decreases |todo|
  {
    if todo == {} {
      names := [];
    } else {
      var n :| n in todo;
      names := ListingExists(files, todo - {n});
      InsertedAscending(names, n);
      names := Inserted(names, n);
    }
  }

  /** Above a name of a listing are the names after it. */
  lemma AboveListed(files: Files, names: seq<string>, k: nat)
    requires IsListing(names, files) && k < |names|
    ensures |Above(files, names[k])| == |names| - k - 1
  {
    var later := names[k + 1..];
    assert Above(files, names[k]) == set n | n in later by {
      forall n ensures n in Above(files, names[k]) <==> n in later { AboveOne(files, names, k, n); }
    }
    AscendingFrom(names, k + 1);
    AscendingDistinct(later);
    DistinctCount(later);
  }

  lemma AboveOne(files: Files, names: seq<string>, k: nat, n: string)
    requires IsListing(names, files) && k < |names|
    ensures n in Above(files, names[k]) <==> n in names[k + 1..]
  {
    hide Less;
    if n in Above(files, names[k]) {
      var i :| 0 <= i < |names| && names[i] == n;
      LessAsymmetric(names[k], n);
      assert i > k;
      assert names[k + 1..][i - k - 1] == n;
    }
  }

  lemma {:induction false} DistinctCount(s: seq<string>)
    requires forall i, j :: 0 <= i < j < |s| ==> s[i] != s[j]
    ensures |set n | n in s| == |s|
  {
    if s != [] {
      DistinctCount(s[1..]);
      assert (set n | n in s) == (set n | n in s[1..]) + {s[0]};
    }
  }

  /** Pruning keeps a copy exactly when fewer than `KEEP` lie above it. */
  lemma PrunedKeeps(files: Files, kept: Files, n: string)
    requires IsPruned(files, kept) && n in files
    ensures n in kept <==> Room(files, n)
  {
    hide Ascending, Above;
    var names := ListingExists(files, files.Keys);
    assert IsListing(names, files);
    var k :| 0 <= k < |names| && names[k] == n;
    AboveListed(files, names, k);
    LastNamesAt(names, k);
  }

  lemma LastNamesAt(names: seq<string>, k: nat)
    requires Ascending(names) && k < |names|
    ensures names[k] in LastNames(names) <==> |names| - k <= KEEP
  {
    hide Less;
    AscendingDistinct(names);
    if |names| - k <= KEEP && |names| > KEEP { assert names[|names| - KEEP..][k - (|names| - KEEP)] == names[k]; }
  }

  lemma HighestHasRoom(files: Files, name: string)
    requires forall n :: n in files ==> Less(n, name)
    ensures Room(files, name)
  {
    forall n | n in files ensures !Less(name, n) { LessAsymmetric(n, name); }
    assert Above(files, name) == {};
  }

  /** Whether the copy itself is there already does not matter. */
  lemma RoomWithout(files: Files, name: string, text: string)
    ensures Room(files[name := text], name) == Room(files, name)
  {
    LessIrreflexive(name);
    assert Above(files[name := text], name) == Above(files, name);
  }

  /** A copy of the log is in the directory until `KEEP` further ones were taken. */
  lemma KeptUntil(files: Files, log: seq<Copy>, k: nat)
    requires Regular(log) && Holds(files, log) && k < |log|
    ensures log[k].name in files <==> |log| - k <= KEEP
    ensures |log| - k <= KEEP ==> files[log[k].name] == log[k].text
  {
    hide Ascending, Regular, Newest, LastNames, Names;
    var newest := Newest(log);
    NamesAscend(log);
    LastNamesAt(Names(log), k);
    NewestNames(log);
    if |log| - k <= KEEP {
      NewestAt(log, k);
      assert log[k] in newest;
    }
  }

  lemma NewestNames(log: seq<Copy>)
    ensures LastNames(Names(log)) == Names(Newest(log))
  {
    NamesFrom(log, |log| - |Newest(log)|);
  }

  lemma NewestAt(log: seq<Copy>, k: nat)
    requires k < |log| && |log| - k <= KEEP
    ensures log[k] in Newest(log)
  {
    assert Newest(log)[k - (|log| - |Newest(log)|)] == log[k];
  }

  /** Copies `text` into the history as of `now`, and prunes. The copy just taken stays exactly
      when it has room; with a clock that has not gone back it is the newest of its log. */
  method Take(files: Files, now: nat, text: string, ghost log: seq<Copy>) returns (stamp: string, kept: Files)
    ensures IsNextStamp(files, Stamp(now), stamp) && IsPruned(files[stamp := text], kept)
    ensures stamp in kept <==> Room(files, stamp)
    ensures stamp in kept ==> kept[stamp] == text
    ensures Regular(log) && Holds(files, log) && MayCopy(log, now) ==>
              && stamp == CopyName(now, CopiesAt(log, now))
              && (forall n :: n in files ==> Less(n, stamp)) && Room(files, stamp)
              && Regular(log + [Copy(now, CopiesAt(log, now), stamp, text)])
              && Holds(kept, log + [Copy(now, CopiesAt(log, now), stamp, text)])
  {
    hide Regular, Holds, MayCopy, IsPruned, Stamp, CopyName, CopiesAt, Less, Room;
    stamp := NextStamp(files, Stamp(now));
    kept := Prune(files[stamp := text]);
    PrunedKeeps(files[stamp := text], kept, stamp);
    RoomWithout(files, stamp, text);
    PrunedText(files[stamp := text], kept, stamp);
    if Regular(log) && Holds(files, log) && MayCopy(log, now) {
      NextNumber(files, log, now, stamp);
      FollowsBy(log, now, stamp, text);
      BackupKeeps(files, log, Copy(now, CopiesAt(log, now), stamp, text), kept);
      HighestHasRoom(files, stamp);
    }
  }

  lemma PrunedText(files: Files, kept: Files, n: string)
    requires IsPruned(files, kept)
    ensures n in kept ==> n in files && kept[n] == files[n]
  {
  }

  lemma FollowsBy(log: seq<Copy>, now: nat, stamp: string, text: string)
    requires MayCopy(log, now) && stamp == CopyName(now, CopiesAt(log, now))
    ensures Follows(Copy(now, CopiesAt(log, now), stamp, text), log)
  {
  }

  /** The number a name claims in its second: what stands behind a dash, if it is a number, else 0. */
  lemma NumberMeans(base: string, rest: string, n: nat)
    ensures CopyNumber(base, base) == 0
    ensures n <= 4294967295 ==> CopyNumber(base + "-" + Print(n), base) == n
    ensures rest == "" || rest[0] != '-' || ParseUnsigned(rest[1..], 4294967295) == None ==>
            CopyNumber(base + rest, base) == 0
  {
    hide ParseUnsigned, Print;
    assert (base + rest)[|base|..] == rest && base[|base|..] == "";
    assert base + "-" + Print(n) == base + ("-" + Print(n)) && (base + ("-" + Print(n)))[|base|..] == "-" + Print(n);
    assert ("-" + Print(n))[1..] == Print(n);
    ReadsPrinted(n, 4294967295);
  }
}
