/** The one way configuration files change (confsave.rs): checked, linted on a
    stage, backed up, promoted, linted live, rolled back. The linters and the
    engine are inputs; any verdicts are possible. */
module ConfSave {
  import opened Options
  import opened StringOrder
  import opened Decimal
  import opened Civil
  import opened CivilText
  import opened History
  import opened ConfRequest
  import opened SetWrites

  predicate SafeName(name: string) {
    && name != "" && name[0] != '.'
    && forall i :: 0 <= i < |name| ==>
         'a' <= name[i] <= 'z' || 'A' <= name[i] <= 'Z' || IsDigit(name[i]) || name[i] in "._-"
  }

  predicate EndsWith(s: string, suffix: string) {
    |suffix| <= |s| && s[|s| - |suffix|..] == suffix
  }

  const META := ".meta"
  const ORIGINAL := "original"

  predicate StampChars(s: string) {
    forall i :: 0 <= i < |s| ==> IsDigit(s[i]) || s[i] == '-'
  }

  lemma DigitsAreStampChars(n: nat, w: nat)
    ensures StampChars(Padded(n, w)) && Padded(n, w) != ""
  {
    PaddedValue(n, w);
  }

  /** A copy's name, whatever the clock said, is one that `read_backup` serves from the history. */
  lemma CopyNameServed(files: Files, now: nat, name: string)
    requires IsNextStamp(files, Stamp(now), name)
    ensures SafeName(name) && !EndsWith(name, META) && name != ORIGINAL
  {
    hide Stamp, IsNextStamp, SafeName, EndsWith;
    StampServed(now);
    SuffixedStamp(files, Stamp(now), name);
    StampNameServed(name);
  }

  lemma SuffixedStamp(files: Files, base: string, name: string)
    requires IsNextStamp(files, base, name) && StampChars(base) && base != ""
    ensures StampChars(name) && name != "" && name[0] == base[0]
  {
    hide CopyNumber, StartsWith;
    if name != base {
      var n :| n in files && HighestOf(files, base, n) && name == base + Suffix(CopyNumber(n, base) + 1);
      DigitsAreStampChars(CopyNumber(n, base) + 1, 3);
    }
  }

  lemma StampServed(secs: nat)
    ensures StampChars(Stamp(secs)) && Stamp(secs) != ""
  {
    hide Padded;
    var d, sod := FromUnix(secs), secs % 86400;
    StampSince(secs);
    DigitsAreStampChars(d.y, 4);
    DigitsAreStampChars(d.m, 2);
    DigitsAreStampChars(d.d, 2);
    DigitsAreStampChars(sod / 3600, 2);
    DigitsAreStampChars(sod % 3600 / 60, 2);
    DigitsAreStampChars(sod % 60, 2);
    assert StampChars(DateField(d) + ("-" + TimeField(sod)));
    StampShape(secs);
  }

  lemma StampNameServed(n: string)
    requires StampChars(n) && n != ""
    ensures SafeName(n) && !EndsWith(n, META) && n != ORIGINAL
  {
    assert ORIGINAL[0] == 'o' && META[0] == '.';
  }

  function Reversed<T>(s: seq<T>): seq<T> {
    seq(|s|, i requires 0 <= i < |s| => s[|s| - 1 - i])
  }

  // ---- the histories --------------------------------------------------------------

  type Dirs = map<string, Files>
  type Logs = map<string, seq<Copy>>

  function LogOf(logs: Logs, p: string): seq<Copy> {
    if p in logs then logs[p] else []
  }

  function FilesOf(dirs: Dirs, p: string): Files {
    if p in dirs then dirs[p] else map[]
  }

  ghost predicate Kept(files: Files, log: seq<Copy>) {
    Regular(log) && Holds(files, log)
  }

  /** Each file's history is the newest end of a regular log of its copies. */
  ghost predicate AllKept(dirs: Dirs, logs: Logs) {
    forall p :: Kept(FilesOf(dirs, p), LogOf(logs, p))
  }

  lemma KeptUpdate(dirs: Dirs, logs: Logs, path: string, files: Files, log: seq<Copy>)
    requires AllKept(dirs, logs) && Kept(files, log)
    ensures AllKept(dirs[path := files], logs[path := log])
  {
    hide Kept;
    var dirs', logs' := dirs[path := files], logs[path := log];
    forall p ensures Kept(FilesOf(dirs', p), LogOf(logs', p)) {
      if p != path { assert Kept(FilesOf(dirs, p), LogOf(logs, p)); }
    }
  }

  /** No copy is forgotten. */
  ghost predicate Grown(logs: Logs, logs': Logs) {
    forall p :: LogOf(logs, p) <= LogOf(logs', p)
  }

  function ReadCopy(dirs: Dirs, originals: Tree, path: string, stamp: string): Option<string> {
    if stamp == ORIGINAL then At(originals, path)
    else if !SafeName(stamp) || EndsWith(stamp, META) then None
    else At(FilesOf(dirs, path), stamp)
  }

  /** The histories before and after one file's text was copied at `now`, under the name `id`:
      the name can be read back exactly when it has room among the copies present. */
  datatype Histories = Histories(dirs: Dirs, logs: Logs)

  ghost predicate Copied(before: Histories, after: Histories, originals: Tree, path: string, text: string, now: nat,
                         id: string) {
    var files, log := FilesOf(before.dirs, path), LogOf(before.logs, path);
    && IsNextStamp(files, Stamp(now), id) && IsPruned(files[id := text], FilesOf(after.dirs, path))
    && after.dirs == before.dirs[path := FilesOf(after.dirs, path)]
    && after.logs == before.logs[path := log + [Copy(now, CopiesAt(log, now), id, text)]]
    && (if Room(files, id) then ReadCopy(after.dirs, originals, path, id) == Some(text)
        else ReadCopy(after.dirs, originals, path, id) == None)
    && (AllKept(before.dirs, before.logs) && MayCopy(log, now) ==>
          && AllKept(after.dirs, after.logs) && id == CopyName(now, CopiesAt(log, now))
          && (forall n :: n in files ==> Less(n, id)) && Room(files, id))
  }

  /** What a stamp is read from: the legacy copy under its own name, nothing under a name that leaves the
      directory, is hidden or belongs to the notes beside a copy, else the copy of that name. */
  lemma ReadMeans(dirs: Dirs, originals: Tree, path: string, stamp: string)
    ensures ReadCopy(dirs, originals, path, "original") == At(originals, path)
    ensures stamp == "" || stamp[0] == '.' || '/' in stamp || (|stamp| >= 5 && stamp[|stamp| - 5..] == ".meta") ==>
              ReadCopy(dirs, originals, path, stamp) == None
    ensures (stamp != "original" && stamp != "" && stamp[0] != '.' && (|stamp| < 5 || stamp[|stamp| - 5..] != ".meta")
             && forall i :: 0 <= i < |stamp| ==>
                  'a' <= stamp[i] <= 'z' || 'A' <= stamp[i] <= 'Z' || '0' <= stamp[i] <= '9' || stamp[i] in "._-") ==>
              ReadCopy(dirs, originals, path, stamp) == At(FilesOf(dirs, path), stamp)
  {
    assert '/' !in "._-" && '/' !in "original" && ORIGINAL[|ORIGINAL| - 5..] == "ginal";
    if '/' in stamp {
      var i :| 0 <= i < |stamp| && stamp[i] == '/';
    }
  }

  // ---- the reports of a set ---------------------------------------------------------

  function RefuseAll(n: nat, why: Refusal, validation: Option<Validation>): (reports: seq<Report>)
    ensures |reports| == n
    ensures forall i :: 0 <= i < n ==> reports[i] == Report(false, None, validation, DidNothing, false, Some(why))
  {
    seq(n, i => Refused(why, validation))
  }

  /** What a promoted set reports before it is linted live. */
  ghost predicate Promoted(reports: seq<Report>, n: nat, tree: Tree, reqs: seq<Request>, changed: seq<bool>,
                           validation: Option<Validation>)
    requires n <= |reqs| == |changed|
  {
    && |reports| == n
    && forall i :: 0 <= i < n ==>
         if changed[i] then
           && reports[i] == Report(true, reports[i].backupId, validation, DidNothing, false, None)
           && (reports[i].backupId.Some? <==> At(Promote(tree, reqs, changed, i), reqs[i].entry.path).Some?)
         else reports[i] == Unchanged()
  }

  /** The old text of each of the first `n` files that changed is in the history under the reported
      id, exactly where that id had room. */
  ghost predicate BackedUp(reports: seq<Report>, n: nat, tree: Tree, reqs: seq<Request>, changed: seq<bool>,
                           before: Dirs, after: Dirs, originals: Tree)
    requires n <= |reqs| == |changed| && n <= |reports|
  {
    forall i :: 0 <= i < n && changed[i] && reqs[i].entry.path in tree ==>
      var path := reqs[i].entry.path;
      && reports[i].backupId.Some?
      && (if Room(FilesOf(before, path), reports[i].backupId.value)
          then ReadCopy(after, originals, path, reports[i].backupId.value) == Some(tree[path])
          else ReadCopy(after, originals, path, reports[i].backupId.value) == None)
  }

  ghost predicate AllRoom(reports: seq<Report>, n: nat, reqs: seq<Request>, before: Dirs)
    requires n <= |reqs| && n <= |reports|
  {
    forall i :: 0 <= i < n && reports[i].backupId.Some? ==>
        Room(FilesOf(before, reqs[i].entry.path), reports[i].backupId.value)
  }

  lemma BackedUpGrows(reports: seq<Report>, more: seq<Report>, n: nat, tree: Tree, reqs: seq<Request>,
                      changed: seq<bool>,
                      before: Dirs, mid: Dirs, after: Dirs, originals: Tree)
    requires n < |reqs| == |changed| && n == |reports| && |more| == n + 1 && more[..n] == reports && DistinctPaths(reqs)
    requires BackedUp(reports, n, tree, reqs, changed, before, mid, originals)
    requires forall p :: p != reqs[n].entry.path ==> FilesOf(after, p) == FilesOf(mid, p)
    ensures BackedUp(more, n, tree, reqs, changed, before, after, originals)
  {
    hide SafeName, EndsWith, Room;
    assert forall i :: 0 <= i < n ==> more[i] == reports[i];
  }

  /** The reports of a set that lasts. */
  ghost predicate Lasting(reports: seq<Report>, reqs: seq<Request>, before: Tree, action: Action)
    requires |reports| == |reqs|
  {
    forall i :: 0 <= i < |reqs| ==>
      && (reports[i].changed <==> Differs(reqs[i], before))
      && reports[i].error == None && !reports[i].rolledBack
      && reports[i].action == (if reports[i].changed then action else DidNothing)
  }

  /** The reports of a set that does not last: of its writes, if it came to any, each is rolled back. */
  ghost predicate Undone(reports: seq<Report>, reqs: seq<Request>, before: Tree, promoted: bool)
    requires |reports| == |reqs|
  {
    forall i :: 0 <= i < |reqs| ==>
      && !reports[i].changed && reports[i].action == DidNothing
      && (Differs(reqs[i], before) ==> reports[i].error.Some?)
      && (reports[i].rolledBack <==> promoted && Differs(reqs[i], before))
      && (reports[i].rolledBack ==> reports[i].error == Some(PutBack))
  }

  // ---- the tree and its histories -----------------------------------------------------------------

  class ConfTree {
    /** The line parsers of the kinds that have one. */
    const parses: (Kind, string) -> bool
    /** The copies kept from before this tool first wrote a file. */
    const originals: Tree

    var live: Tree
    var dirs: Dirs
    /** Every copy ever taken, by file. */
    ghost var logs: Logs

    constructor (parses: (Kind, string) -> bool, originals: Tree, live: Tree, dirs: Dirs)
      ensures this.live == live && this.parses == parses && this.originals == originals
      ensures this.dirs == dirs && logs == map[] && (dirs == map[] ==> Valid())
    {
      this.parses, this.originals, this.live, this.dirs := parses, originals, live, dirs;
      logs := map[];
    }

    /** What a clock that never went back keeps. */
    ghost predicate Valid()
      reads this`dirs, this`logs
    {
      AllKept(dirs, logs)
    }

    ghost function Now(): Histories
      reads this`dirs, this`logs
    {
      Histories(dirs, logs)
    }

    predicate SyntaxOk(kind: Kind, text: string) {
      && '\0' !in text
      && match kind
         case ReadOnly => false
         case KeyValue => true
         case PlainText => true
         case _ => parses(kind, text)
    }

    /** What the syntax check lets pass: no binary content, nothing read-only, and what the parser of
        the kind takes, if there is one. */
    lemma SyntaxMeans(kind: Kind, text: string)
      ensures SyntaxOk(kind, text) <==>
                && (forall i :: 0 <= i < |text| ==> text[i] != 0 as char) && kind != ReadOnly
                && (kind == KeyValue || kind == PlainText || parses(kind, text))
    {
    }

    // ---- history ------------------------------------------------------------------

    method Backup(path: string, now: nat) returns (id: Option<string>)
      modifies this`dirs, this`logs
      ensures path !in live ==> id == None && Now() == old(Now())
      ensures path in live ==> id.Some? && Copied(old(Now()), Now(), originals, path, live[path], now, id.value)
    {
      hide Stamp, CopyName, MayCopy, CopiesAt, Regular, Holds, SafeName, EndsWith, Less, Room, IsPruned, IsNextStamp,
           AllKept;
      if path !in live { return None; }
      var files := FilesOf(dirs, path);
      ghost var log := LogOf(logs, path);
      var stamp, kept := Take(files, now, live[path], log);
      CopyNameServed(files, now, stamp);
      ghost var longer := log + [Copy(now, CopiesAt(log, now), stamp, live[path])];
      if Valid() {
        KeptOne(dirs, logs, path);
        if MayCopy(log, now) { KeptUpdate(dirs, logs, path, kept, longer); }
      }
      dirs := dirs[path := kept];
      logs := logs[path := longer];
      id := Some(stamp);
    }

    lemma KeptOne(dirs: Dirs, logs: Logs, path: string)
      requires AllKept(dirs, logs)
      ensures Kept(FilesOf(dirs, path), LogOf(logs, path))
    {
    }

    /** The history as shown: names descending, the legacy original last; under a clock that never
        went back, the newest copies, 50 at most, newest first. */
    method ListHistory(path: string) returns (stamps: seq<string>)
      ensures exists names :: IsListing(names, FilesOf(dirs, path)) && ShownAs(stamps, names, path)
      ensures Valid() ==>
                var log := LogOf(logs, path);
                && |stamps| == (if |log| <= 50 then |log| else 50) + (if path in originals then 1 else 0)
                && forall i :: 0 <= i < |log| && i < 50 ==> stamps[i] == log[|log| - 1 - i].name
    {
      hide IsListing, AllKept, Less, ShownAs, Regular, Holds, Reversed;
      var files := FilesOf(dirs, path);
      var names := Sorted(files);
      stamps := Reversed(names) + (if path in originals then [ORIGINAL] else []);
      ShowsReversed(stamps, names, path);
      if Valid() {
        KeptOne(dirs, logs, path);
        NewestShown(files, LogOf(logs, path), names, stamps, path);
      }
    }

    lemma ShowsReversed(stamps: seq<string>, names: seq<string>, path: string)
      requires stamps == Reversed(names) + (if path in originals then [ORIGINAL] else [])
      ensures ShownAs(stamps, names, path)
    {
    }

    lemma NewestShown(files: Files, log: seq<Copy>, names: seq<string>, stamps: seq<string>, path: string)
      requires Kept(files, log) && IsListing(names, files) && ShownAs(stamps, names, path)
      ensures |stamps| == (if |log| <= 50 then |log| else 50) + (if path in originals then 1 else 0)
      ensures forall i :: 0 <= i < |log| && i < 50 ==> stamps[i] == log[|log| - 1 - i].name
    {
      hide Regular, Holds, IsListing;
      ListingIsNewest(files, log, names);
    }

    /** The names from the last to the first, then the legacy original. */
    ghost predicate ShownAs(stamps: seq<string>, names: seq<string>, path: string) {
      && |stamps| == |names| + (if path in originals then 1 else 0)
      && (forall i :: 0 <= i < |names| ==> stamps[i] == names[|names| - 1 - i])
      && (path in originals ==> stamps[|names|] == "original")
    }

    function ReadBackup(path: string, stamp: string): Option<string>
      reads this`dirs
    {
      ReadCopy(dirs, originals, path, stamp)
    }

    /** A copy ever taken can be read exactly until `KEEP` further ones of its file were. */
    lemma ReadableUntil(path: string, k: nat)
      requires Valid() && k < |LogOf(logs, path)|
      ensures var log := LogOf(logs, path);
              ReadBackup(path, log[k].name) == if |log| - k <= KEEP then Some(log[k].text) else None
    {
      hide SafeName, EndsWith, Regular, Holds, CopyName, AllKept;
      var log := LogOf(logs, path);
      KeptOne(dirs, logs, path);
      KeptUntil(FilesOf(dirs, path), log, k);
      LogServed(log, k);
    }

    lemma LogServed(log: seq<Copy>, k: nat)
      requires Regular(log) && k < |log|
      ensures SafeName(log[k].name) && !EndsWith(log[k].name, META) && log[k].name != ORIGINAL
    {
      hide Stamp, SafeName, EndsWith, Regular, Suffix;
      RegularAt(log, k);
      StampServed(log[k].secs);
      SuffixServed(log[k].number);
      StampNameServed(log[k].name);
    }

    lemma SuffixServed(number: nat)
      ensures StampChars(Suffix(number))
    {
      if number > 0 { DigitsAreStampChars(number, 3); }
    }

    // ---- one file -------------------------------------------------------------------

    /** A linter refuses this one file before it is written. */
    ghost predicate StageRefuses(e: Entry, w: World) {
      && e.root == Ms
      && ((e.validator == SaLint && !SaAccepts(w))
          || (e.validator == MsLint && e.path !in w.unstageable && StageJudged(w) && !w.staged.Accepts()))
    }

    /** The verdict on this one file is the live tree's. */
    ghost predicate JudgedLive(e: Entry, w: World) {
      && e.root == Ms
      && (e.validator == MsLintAfter || (e.validator == MsLint && (e.path in w.unstageable || !StageJudged(w))))
    }

    /** The linter that judges this one file let it pass. */
    ghost predicate LintPasses(e: Entry, w: World) {
      !StageRefuses(e, w) && (JudgedLive(e, w) ==> LiveTolerates(w))
    }

    /** The verdict on record, when one was asked for. */
    ghost function VerdictOn(e: Entry, w: World): Option<Validation> {
      if e.root != Ms then None
      else if JudgedLive(e, w) then Some(Verdict(w.live))
      else match e.validator
           case MsLint => Some(Verdict(w.staged))
           case SaLint => Some(Validation(SpamAssassin, SaAccepts(w), false))
           case _ => None
    }

    /** The lint before anything is written; `lintAfter` leaves the verdict to the live tree. */
    method LintStaged(e: Entry, w: World) returns (refused: bool, validation: Option<Validation>, lintAfter: bool)
      ensures refused == StageRefuses(e, w) && lintAfter == JudgedLive(e, w)
      ensures validation == if lintAfter then None else VerdictOn(e, w)
      ensures !lintAfter && validation.Some? ==> (validation.value.ok <==> !refused)
    {
      refused, validation, lintAfter := false, None, false;
      if e.root == Ms {
        match e.validator {
          case MsLint =>
            if e.path in w.unstageable {
              lintAfter := true; // behind a symlink: judged in place
            } else if !w.staged.timedOut && !w.staged.namesStaged {
              lintAfter := true; // the engine read the live conf instead
            } else {
              var verdict := MsValidation(w.staged);
              validation := Some(verdict);
              refused := !verdict.ok;
            }
          case SaLint =>
            var ok := w.spamassassin.ok && !w.spamassassin.problems;
            validation := Some(Validation(SpamAssassin, ok, false));
            refused := !ok;
          case MsLintAfter => lintAfter := true;
          case SyntaxOnly =>
          case TomlLoad =>
        }
      }
    }

    ghost predicate IsStale(r: Request, before: Tree, w: World) {
      r.expectMtime.Some? && r.entry.path in before && r.expectMtime.value != w.mtime
    }

    /** What it takes for a save of one file to last. */
    ghost predicate Passes(r: Request, before: Tree, w: World) {
      && r.entry.kind != ReadOnly && !IsStale(r, before, w) && SyntaxOk(r.entry.kind, r.newText)
      && (r.lint == LintAuto ==> LintPasses(r.entry, w))
    }

    /** Why a save does not last; the first reason counts. */
    ghost function Refusing(r: Request, before: Tree, w: World): Option<Refusal> {
      if r.entry.kind == ReadOnly then Some(NotEditable)
      else if IsStale(r, before, w) then Some(Stale)
      else if !Differs(r, before) then None
      else if !SyntaxOk(r.entry.kind, r.newText) then Some(BadSyntax)
      else if r.lint == LintSkip then None
      else if StageRefuses(r.entry, w) then Some(LintRejected)
      else if JudgedLive(r.entry, w) && !LiveTolerates(w) then Some(PutBack)
      else None
    }

    /** One save: the text lasts exactly when it differs and passes every check, and else the tree
        is as it was; error, verdict, action and history follow. */
    ghost predicate Saved(r: Request, w: World, now: nat, report: Report,
                          before: Tree, after: Tree, from: Histories, to: Histories)
    {
      var lasts, why := Differs(r, before) && Passes(r, before, w), Refusing(r, before, w);
      && report.changed == lasts && after == (if lasts then before[r.entry.path := r.newText] else before)
      && report.error == why && report.rolledBack == (why == Some(PutBack)) && (lasts ==> why == None)
      && (report.action == DidRestart <==>
            lasts && r.reload == ReloadAuto && r.entry.reload == WantsRestart && w.engineActive)
      && (report.action == DidReload <==> lasts && r.reload == ReloadAuto && r.entry.reload == WantsReload)
      && report.validation == (if r.lint == LintAuto && (lasts || why == Some(LintRejected) || why == Some(PutBack))
                               then VerdictOn(r.entry, w) else None)
      && (if (lasts || report.rolledBack) && r.entry.path in before then
            && report.backupId.Some?
            && Copied(from, to, originals, r.entry.path, before[r.entry.path], now, report.backupId.value)
          else report.backupId == None && to == from)
    }

    method Save(r: Request, w: World, now: nat) returns (report: Report)
      modifies this
      ensures Saved(r, w, now, report, old(live), live, old(Now()), Now())
    {
      hide Copied, LintPasses, SyntaxOk, StageRefuses, JudgedLive, VerdictOn;
      var e := r.entry;
      LintPassesWhen(e, w);
      if e.kind == ReadOnly { return Refused(NotEditable, None); }
      if r.expectMtime.Some? && e.path in live && r.expectMtime.value != w.mtime { return Refused(Stale, None); }
      var current := if e.path in live then live[e.path] else "";
      if e.path in live && current == r.newText { return Unchanged(); }
      if !SyntaxOk(e.kind, r.newText) { return Refused(BadSyntax, None); }

      var validation: Option<Validation> := None;
      var lintAfter := false;
      if r.lint == LintAuto {
        var refused;
        refused, validation, lintAfter := LintStaged(e, w);
        if refused { return Refused(LintRejected, validation); }
      }

      // promote
      var backupId := Backup(e.path, now);
      var existed := e.path in live;
      live := live[e.path := r.newText];

      // lint after apply
      if lintAfter {
        var verdict := MsValidation(w.live);
        validation := Some(verdict);
        LiveVerdict(e, w);
        if !verdict.ok && !verdict.timedOut {
          if existed {
            live := live[e.path := current];
          } else {
            live := live - {e.path};
          }
          assert live == old(live);
          return Report(false, backupId, validation, DidNothing, true, Some(PutBack));
        }
      }
      var action := EngineAction(e.reload, r.reload, w.engineActive);
      report := Report(true, backupId, validation, action, false, None);
    }

    lemma LintPassesWhen(e: Entry, w: World)
      ensures LintPasses(e, w) <==> !StageRefuses(e, w) && (JudgedLive(e, w) ==> LiveTolerates(w))
      ensures StageRefuses(e, w) ==> !JudgedLive(e, w)
    {
    }

    lemma LiveVerdict(e: Entry, w: World)
      ensures JudgedLive(e, w) ==> VerdictOn(e, w) == Some(Verdict(w.live))
    {
    }

    /** A text that lasts under the linters was accepted by the one that judged it, or the live lint
        ran out of time; what it replaced is in the history, unless the clock went back too far. */
    lemma LastingSave(r: Request, w: World, now: nat, report: Report, before: Tree, after: Tree, from: Histories,
                      to: Histories)
      requires Saved(r, w, now, report, before, after, from, to) && report.changed
      ensures r.lint == LintAuto && LintsEngine(r.entry) ==>
                && report.validation.Some?
                && (report.validation.value.ok || (JudgedLive(r.entry, w) && report.validation.value.timedOut))
      ensures AllKept(from.dirs, from.logs) && MayCopy(LogOf(from.logs, r.entry.path), now) ==>
              AllKept(to.dirs, to.logs)
      ensures r.entry.path in before && AllKept(from.dirs, from.logs)
              && MayCopy(LogOf(from.logs, r.entry.path), now) ==>
                report.backupId.Some?
                && ReadCopy(to.dirs, originals, r.entry.path, report.backupId.value) == Some(before[r.entry.path])
    {
      hide AllKept, MayCopy, ReadCopy, IsPruned, IsNextStamp, Room, Less, CopiesAt, SyntaxOk;
    }

    /** Puts a history copy back through the same pipeline; `None` when it cannot be read. */
    method Restore(e: Entry, stamp: string, lint: LintMode, reload: ReloadMode, w: World, now: nat)
      returns (report: Option<Report>)
      modifies this
      ensures match old(ReadBackup(e.path, stamp))
              case None => report == None && live == old(live) && Now() == old(Now())
              case Some(text) =>
                && report.Some?
                && Saved(Request(e, text, lint, reload, None), w, now, report.value, old(live), live, old(Now()), Now())
    {
      hide Saved;
      var text := ReadBackup(e.path, stamp);
      if text == None { return None; }
      var saved := Save(Request(e, text.value, lint, reload, None), w, now);
      report := Some(saved);
    }

    /** A change that lasted is undone by restoring the copy it reported, with lint skipped, exactly
        when that copy had room in the history and the old text still passes the syntax check. */
    method SaveThenRestore(r: Request, w: World, now: nat, w2: World, now2: nat) returns (report: Report)
      modifies this
      ensures report.changed && r.entry.path in old(live) ==>
                && report.backupId.Some?
                && (live == old(live) <==> Room(FilesOf(old(dirs), r.entry.path), report.backupId.value)
                                           && SyntaxOk(r.entry.kind, old(live)[r.entry.path]))
                && (old(Valid()) && MayCopy(LogOf(old(logs), r.entry.path), now) ==>
                      (live == old(live) <==> SyntaxOk(r.entry.kind, old(live)[r.entry.path])))
    {
      hide SyntaxOk, MayCopy, CopiesAt, Stamp, CopyName, AllKept, IsPruned, IsNextStamp, Room, Less, ReadCopy,
           LintPasses, VerdictOn;
      report := Save(r, w, now);
      if report.changed && report.backupId.Some? {
        ghost var mid := live;
        assert mid != old(live);
        var undone := Restore(r.entry, report.backupId.value, LintSkip, r.reload, w2, now2);
      }
    }

    /** Restoring any copy ever taken, lint skipped: the file holds its text afterwards exactly when it
        did before, or fewer than `KEEP` copies were taken since and the text passes the syntax check. */
    method RestoreLater(e: Entry, ghost k: nat, stamp: string, reload: ReloadMode, w: World, now: nat)
      returns (report: Option<Report>)
      requires Valid() && k < |LogOf(logs, e.path)| && stamp == LogOf(logs, e.path)[k].name
      modifies this
      ensures var log := LogOf(old(logs), e.path);
              At(live, e.path) == Some(log[k].text) <==>
              At(old(live), e.path) == Some(log[k].text) || (|log| - k <= KEEP && SyntaxOk(e.kind, log[k].text))
    {
      hide SyntaxOk, Copied, LintPasses, VerdictOn, ReadCopy, AllKept;
      ReadableUntil(e.path, k);
      SyntaxEditable(e.kind, LogOf(logs, e.path)[k].text);
      report := Restore(e, stamp, LintSkip, reload, w, now);
    }

    lemma SyntaxEditable(kind: Kind, text: string)
      ensures SyntaxOk(kind, text) ==> kind != ReadOnly
    {
    }

    // ---- a set of files -----------------------------------------------------------------

    /** Every file of the set may be written, and its text reads as its kind. */
    ghost predicate AllReadable(reqs: seq<Request>) {
      forall i :: 0 <= i < |reqs| ==> Readable(reqs[i])
    }

    ghost predicate Readable(r: Request) {
      r.entry.kind != ReadOnly && SyntaxOk(r.entry.kind, r.newText)
    }

    /** All changed files staged together and linted once. */
    method LintSetStaged(reqs: seq<Request>, changed: seq<bool>, w: World)
      returns (refused: bool, validation: Option<Validation>, lintAfter: bool)
      requires changed == Marked(reqs, live)
      ensures refused == !StagePasses(reqs, live, w)
      ensures !refused ==> lintAfter == LeftToLive(reqs, live, w)
    {
      hide Differs;
      refused, validation, lintAfter := false, None, false;
      var needMs, needSa := false, false;
      for i := 0 to |reqs|
        invariant needMs ==> NeedsStage(reqs, live, w)
        invariant !needMs ==> forall j :: 0 <= j < i ==>
                  !(Differs(reqs[j], live) && LintsEngine(reqs[j].entry) && reqs[j].entry.path !in w.unstageable)
        invariant needSa ==> NeedsSa(reqs, live)
        invariant !needSa ==> forall j :: 0 <= j < i ==>
                  !(Differs(reqs[j], live) && reqs[j].entry.root == Ms && reqs[j].entry.validator == SaLint)
        invariant lintAfter ==> NeedsLive(reqs, live, w)
        invariant !lintAfter ==> forall j :: 0 <= j < i ==> !(Differs(reqs[j], live) && LintsEngine(reqs[j].entry)
                                                              && (reqs[j].entry.path in w.unstageable
                                                                 || reqs[j].entry.validator == MsLintAfter))
      {
        var e := reqs[i].entry;
        if changed[i] && e.root == Ms {
          match e.validator {
            case MsLint =>
              if e.path in w.unstageable { lintAfter := true; } else { needMs := true; }
            case MsLintAfter =>
              lintAfter := true;
              if e.path !in w.unstageable { needMs := true; }
            case SaLint => needSa := true;
            case SyntaxOnly =>
            case TomlLoad =>
          }
        }
      }
      assert needMs == NeedsStage(reqs, live, w) && needSa == NeedsSa(reqs, live)
             && lintAfter == NeedsLive(reqs, live, w);
      if needMs {
        if !w.staged.timedOut && !w.staged.namesStaged {
          lintAfter := true;
        } else {
          var verdict := MsValidation(w.staged);
          validation := Some(verdict);
          if !verdict.ok { refused := true; return; }
        }
      }
      if needSa {
        var ok := w.spamassassin.ok && !w.spamassassin.problems;
        if !ok {
          validation := Some(Validation(SpamAssassin, false, false));
          refused := true;
        }
      }
    }

    /** The clock may copy each file of the set when its turn comes. */
    ghost predicate MayCopyAll(reqs: seq<Request>, logs: Logs, clocks: seq<nat>) {
      && |clocks| == |reqs| && DistinctPaths(reqs)
      && forall i :: 0 <= i < |reqs| ==> MayCopy(LogOf(logs, reqs[i].entry.path), clocks[i])
    }

    /** The histories after the first `n` backups of a set. */
    ghost predicate SetCopied(n: nat, reports: seq<Report>, tree: Tree, reqs: seq<Request>, changed: seq<bool>,
                              clocks: seq<nat>,
                              from: Histories, to: Histories)
      requires n <= |reqs| == |changed| && n <= |reports|
    {
      && Grown(from.logs, to.logs)
      && (DistinctPaths(reqs) ==>
            && BackedUp(reports, n, tree, reqs, changed, from.dirs, to.dirs, originals)
            && forall j :: n <= j < |reqs| ==>
                 && FilesOf(to.dirs, reqs[j].entry.path) == FilesOf(from.dirs, reqs[j].entry.path)
                 && LogOf(to.logs, reqs[j].entry.path) == LogOf(from.logs, reqs[j].entry.path))
      && (AllKept(from.dirs, from.logs) && MayCopyAll(reqs, from.logs, clocks) ==>
            AllKept(to.dirs, to.logs) && AllRoom(reports, n, reqs, from.dirs))
    }

    /** Backs up and writes every changed file. */
    method PromoteAll(reqs: seq<Request>, changed: seq<bool>, clocks: seq<nat>, validation: Option<Validation>)
      returns (reports: seq<Report>, written: seq<Written>)
      requires |clocks| == |reqs| == |changed|
      modifies this
      ensures live == Promote(old(live), reqs, changed, |reqs|) && written == Writes(old(live), reqs, changed, |reqs|)
      ensures |reports| == |reqs| && Promoted(reports, |reqs|, old(live), reqs, changed, validation)
      ensures SetCopied(|reqs|, reports, old(live), reqs, changed, clocks, old(Now()), Now())
    {
      hide Copied, SetCopied, Promoted, MayCopyAll, Promote, Writes;
      reports, written := [], [];
      NoWrites(live, live, reqs, changed);
      NothingCopied(live, reqs, changed, clocks, Now());
      NothingPromoted(live, reqs, changed, validation);
      for i := 0 to |reqs|
        invariant live == Promote(old(live), reqs, changed, i) && written == Writes(old(live), reqs, changed, i)
        invariant |reports| == i && Promoted(reports, i, old(live), reqs, changed, validation)
        invariant SetCopied(i, reports, old(live), reqs, changed, clocks, old(Now()), Now())
      {
        var path := reqs[i].entry.path;
        ghost var before, mid := reports, Now();
        WritesStep(old(live), reqs, changed, i);
        if !changed[i] {
          reports := reports + [Unchanged()];
        } else {
          var existed := path in live;
          var prev := if path in live then Some(live[path]) else None;
          var backupId := Backup(path, clocks[i]);
          live := live[path := reqs[i].newText];
          written := written + [Written(i, prev, existed)];
          reports := reports + [Report(true, backupId, validation, DidNothing, false, None)];
        }
        PromotedStep(before, reports, i, old(live), reqs, changed, validation);
        SetCopiedStep(i, before, reports, old(live), reqs, changed, clocks, old(Now()), mid, Now());
      }
    }

    lemma NothingPromoted(tree: Tree, reqs: seq<Request>, changed: seq<bool>, validation: Option<Validation>)
      requires |changed| == |reqs|
      ensures Promoted([], 0, tree, reqs, changed, validation)
    {
    }

    lemma NothingCopied(tree: Tree, reqs: seq<Request>, changed: seq<bool>, clocks: seq<nat>, h: Histories)
      requires |changed| == |reqs|
      ensures SetCopied(0, [], tree, reqs, changed, clocks, h, h)
    {
      hide AllKept, MayCopyAll;
    }

    lemma PromotedStep(before: seq<Report>, reports: seq<Report>, i: nat, tree: Tree, reqs: seq<Request>,
                       changed: seq<bool>,
                       validation: Option<Validation>)
      requires i < |reqs| == |changed| && Promoted(before, i, tree, reqs, changed, validation)
      requires |reports| == i + 1 && reports[..i] == before
      requires if changed[i] then
                 && reports[i] == Report(true, reports[i].backupId, validation, DidNothing, false, None)
                 && (reports[i].backupId.Some? <==> reqs[i].entry.path in Promote(tree, reqs, changed, i))
               else reports[i] == Unchanged()
      ensures Promoted(reports, i + 1, tree, reqs, changed, validation)
    {
      hide Promote;
      assert forall k :: 0 <= k < i ==> reports[k] == before[k];
    }

    /** One backup more. */
    lemma SetCopiedStep(i: nat, before: seq<Report>, reports: seq<Report>, tree: Tree, reqs: seq<Request>,
                        changed: seq<bool>,
                        clocks: seq<nat>, from: Histories, mid: Histories, to: Histories)
      requires i < |reqs| == |changed| == |clocks| && |before| == i && |reports| == i + 1 && reports[..i] == before
      requires SetCopied(i, before, tree, reqs, changed, clocks, from, mid)
      requires var path, live := reqs[i].entry.path, Promote(tree, reqs, changed, i);
               if changed[i] && path in live then
                 reports[i].backupId.Some?
                     && Copied(mid, to, originals, path, live[path], clocks[i], reports[i].backupId.value)
               else reports[i].backupId == None && to == mid
      ensures SetCopied(i + 1, reports, tree, reqs, changed, clocks, from, to)
    {
      hide Promote, BackedUp, AllKept, AllRoom, Copied, MayCopy;
      var path := reqs[i].entry.path;
      CopiedElsewhere(mid, to, path, i, reports[i], tree, reqs, changed, clocks);
      if DistinctPaths(reqs) {
        UnwrittenYet(tree, reqs, changed, i);
        BackedUpGrows(before, reports, i, tree, reqs, changed, from.dirs, mid.dirs, to.dirs, originals);
        BackedUpOne(i, reports, tree, reqs, changed, clocks, from, mid, to);
      }
      if AllKept(from.dirs, from.logs) && MayCopyAll(reqs, from.logs, clocks) {
        AllRoomOne(i, before, reports, tree, reqs, changed, clocks, from, mid, to);
      }
    }

    lemma CopiedElsewhere(mid: Histories, to: Histories, path: string, i: nat, report: Report, tree: Tree,
                          reqs: seq<Request>,
                          changed: seq<bool>, clocks: seq<nat>)
      requires i < |reqs| == |changed| == |clocks| && path == reqs[i].entry.path
      requires var live := Promote(tree, reqs, changed, i);
               if changed[i] && path in live then
                 report.backupId.Some? && Copied(mid, to, originals, path, live[path], clocks[i], report.backupId.value)
               else to == mid
      ensures forall p :: p != path ==>
              FilesOf(to.dirs, p) == FilesOf(mid.dirs, p) && LogOf(to.logs, p) == LogOf(mid.logs, p)
      ensures Grown(mid.logs, to.logs)
    {
      hide Promote, AllKept, IsPruned, IsNextStamp, Room, ReadCopy, MayCopy, CopiesAt, CopyName, Less, Stamp;
    }

    lemma BackedUpOne(i: nat, reports: seq<Report>, tree: Tree, reqs: seq<Request>, changed: seq<bool>,
                      clocks: seq<nat>,
                      from: Histories, mid: Histories, to: Histories)
      requires i < |reqs| == |changed| == |clocks| && |reports| == i + 1
      requires BackedUp(reports, i, tree, reqs, changed, from.dirs, to.dirs, originals)
      requires var path := reqs[i].entry.path;
               && FilesOf(mid.dirs, path) == FilesOf(from.dirs, path)
               && (changed[i] && path in tree ==>
                     reports[i].backupId.Some?
                         && Copied(mid, to, originals, path, tree[path], clocks[i], reports[i].backupId.value))
      ensures BackedUp(reports, i + 1, tree, reqs, changed, from.dirs, to.dirs, originals)
    {
      hide AllKept, IsPruned, IsNextStamp, Room, ReadCopy, MayCopy;
    }

    lemma AllRoomOne(i: nat, before: seq<Report>, reports: seq<Report>, tree: Tree, reqs: seq<Request>,
                     changed: seq<bool>,
                     clocks: seq<nat>, from: Histories, mid: Histories, to: Histories)
      requires i < |reqs| == |changed| == |clocks| && |before| == i && |reports| == i + 1 && reports[..i] == before
      requires AllKept(mid.dirs, mid.logs) && MayCopyAll(reqs, from.logs, clocks) && AllRoom(before, i, reqs, from.dirs)
      requires var path, live := reqs[i].entry.path, Promote(tree, reqs, changed, i);
               && FilesOf(mid.dirs, path) == FilesOf(from.dirs, path) && LogOf(mid.logs, path) == LogOf(from.logs, path)
               && if changed[i] && path in live then
                    reports[i].backupId.Some?
                        && Copied(mid, to, originals, path, live[path], clocks[i], reports[i].backupId.value)
                  else reports[i].backupId == None && to == mid
      ensures AllKept(to.dirs, to.logs) && AllRoom(reports, i + 1, reqs, from.dirs)
    {
      hide AllKept, IsPruned, IsNextStamp, Room, ReadCopy, MayCopy, Promote;
      assert forall k :: 0 <= k < i ==> reports[k] == before[k];
    }

    lemma NothingWritten(tree: Tree, reqs: seq<Request>)
      ensures Rollback(tree, reqs, []) == tree && forall i :: !HasWrite(i, [])
    {
    }

    /** Undoes the writes in their order: the text each found, or no file. */
    method PutBackAll(reqs: seq<Request>, written: seq<Written>, reports: seq<Report>, verdict: Validation)
      returns (result: seq<Report>)
      requires |reports| == |reqs|
      requires forall k :: 0 <= k < |written| ==>
                 written[k].index < |reqs| && (written[k].existed <==> written[k].prev.Some?)
      modifies this`live
      ensures live == Rollback(old(live), reqs, written) && |result| == |reqs|
      ensures forall i :: 0 <= i < |reqs| ==>
                result[i] == if HasWrite(i, written)
                             then reports[i].(changed := false, rolledBack := true, error := Some(PutBack),
                                 validation := Some(verdict))
                             else reports[i].(validation := Some(verdict))
    {
      hide Rollback, HasWrite;
      result := reports;
      assert written[..0] == [];
      NothingWritten(live, reqs);
      for k := 0 to |written|
        invariant |result| == |reqs| && live == Rollback(old(live), reqs, written[..k])
        invariant forall i :: 0 <= i < |reqs| ==>
                    result[i] == if HasWrite(i, written[..k])
                                 then reports[i].(changed := false, rolledBack := true, error := Some(PutBack))
                                     else reports[i]
      {
        var wr := written[k];
        var path := reqs[wr.index].entry.path;
        assert written[..k + 1] == written[..k] + [wr];
        RollbackStep(old(live), reqs, written[..k], wr);
        HasWriteGrows(written[..k], wr);
        if wr.existed && wr.prev.Some? {
          live := live[path := wr.prev.value];
        } else {
          live := live - {path};
        }
        result := result[wr.index := result[wr.index].(changed := false, rolledBack := true, error := Some(PutBack))];
      }
      assert written[..|written|] == written;
      result := seq(|result|, i requires 0 <= i < |result| => result[i].(validation := Some(verdict)));
    }

    /** The one engine action of a set that lasts, entered in the reports of its changed files. */
    method Conclude(reqs: seq<Request>, changed: seq<bool>, reports: seq<Report>, reload: ReloadMode, w: World,
                    lintAfter: bool, ghost before: Tree)
      returns (result: seq<Report>, actions: seq<Action>)
      requires changed == Marked(reqs, before) && |reports| == |reqs| && reqs != [] && reload == reqs[0].reload
      requires forall i :: 0 <= i < |reqs| ==> reports[i].changed == changed[i]
      ensures |result| == |reqs| && SetActions(actions, reqs, before, w)
      ensures forall i :: 0 <= i < |reqs| ==>
                result[i] == if changed[i] then
                               reports[i].(action := if actions == [] then DidNothing else actions[0],
                                           validation := if lintAfter then Some(Verdict(w.live))
                                               else reports[i].validation)
                             else reports[i]
    {
      hide Differs;
      var wantRestart, wantReload := false, false;
      for i := 0 to |reqs|
        invariant wantRestart <==> exists j :: 0 <= j < i && changed[j] && reqs[j].entry.reload == WantsRestart
        invariant wantReload <==> exists j :: 0 <= j < i && changed[j] && reqs[j].entry.reload == WantsReload
      {
        if changed[i] && reqs[i].entry.reload == WantsRestart { wantRestart := true; }
        if changed[i] && reqs[i].entry.reload == WantsReload { wantReload := true; }
      }
      assert wantRestart == Wants(reqs, before, WantsRestart) && wantReload == Wants(reqs, before, WantsReload);
      var action := EngineAction(if wantRestart then WantsRestart else if wantReload then WantsReload else WantsNothing,
                                 reload, w.engineActive);
      actions := if action == DidNothing then [] else [action];
      var verdict := MsValidation(w.live);
      result := seq(|reports|, i requires 0 <= i < |reports| =>
        if reports[i].changed
        then reports[i].(action := action, validation := if lintAfter then Some(verdict) else reports[i].validation)
        else reports[i]);
    }

    /** What it takes for a set to last. */
    ghost predicate Lasts(reqs: seq<Request>, before: Tree, w: World) {
      AllReadable(reqs) && (reqs != [] && reqs[0].lint == LintAuto ==> LintsPass(reqs, before, w))
    }

    /** The set comes to be written. */
    ghost predicate Promotes(reqs: seq<Request>, before: Tree, w: World) {
      AllReadable(reqs) && AnyDiffers(reqs, before) && (reqs[0].lint == LintAuto ==> StagePasses(reqs, before, w))
    }

    /** And the live lint has it put back. */
    ghost predicate RollsBack(reqs: seq<Request>, before: Tree, w: World) {
      Promotes(reqs, before, w) && reqs[0].lint == LintAuto && LeftToLive(reqs, before, w) && !LiveTolerates(w)
    }

    /** Saves several files as one change: the requests are written when the checks and the linters
        pass; otherwise nothing lasts of it, and no engine is touched. */
    method SaveMany(reqs: seq<Request>, w: World, clocks: seq<nat>) returns (reports: seq<Report>, actions: seq<Action>)
      requires |clocks| == |reqs|
      modifies this
      ensures |reports| == |reqs|
      // a set that lasts: every requested text in place, at most one engine action
      ensures Lasts(reqs, old(live), w) ==>
                && live == Promote(old(live), reqs, Marked(reqs, old(live)), |reqs|)
                   && OthersKept(reqs, old(live), live)
                && (DistinctPaths(reqs) ==> AllInPlace(reqs, live))
      ensures Lasts(reqs, old(live), w) && AnyDiffers(reqs, old(live)) ==>
                && SetActions(actions, reqs, old(live), w)
                && Lasting(reports, reqs, old(live), if actions == [] then DidNothing else actions[0])
      ensures Lasts(reqs, old(live), w) && !AnyDiffers(reqs, old(live)) ==>
                live == old(live) && actions == [] && forall i :: 0 <= i < |reqs| ==> reports[i] == Unchanged()
      // a set refused before it is read further names the first file that may not be written, or reads badly
      ensures !AllReadable(reqs) ==>
                exists i :: 0 <= i < |reqs| && (forall j :: 0 <= j < i ==> Readable(reqs[j])) && !Readable(reqs[i])
                            && reports == RefuseAll(|reqs|, if reqs[i].entry.kind == ReadOnly then NotEditable
                               else BadSyntax, None)
      // a set that does not: the original tree, exactly unless a file was written twice and rolled back
      ensures !Lasts(reqs, old(live), w) ==>
                && actions == [] && Undone(reports, reqs, old(live), RollsBack(reqs, old(live), w))
                && (live == old(live)
                   <==> !RollsBack(reqs, old(live), w) || DistinctWrites(reqs, Marked(reqs, old(live))))
      ensures if Promotes(reqs, old(live), w)
              then SetCopied(|reqs|, reports, old(live), reqs, Marked(reqs, old(live)), clocks, old(Now()), Now())
              else Now() == old(Now())
    {
      hide SyntaxOk, StagePasses, LeftToLive, Wants, Differs, SetActions, SetCopied, Lasting, DistinctWrites,
           DistinctPaths, AllInPlace,
           OthersKept, Promote, Rollback, Writes, Marked;
      actions := [];
      // cheap refusals first
      for i := 0 to |reqs|
        invariant forall j :: 0 <= j < i ==> Readable(reqs[j])
      {
        if reqs[i].entry.kind == ReadOnly {
          return RefuseAll(|reqs|, NotEditable, None), [];
        }
        if !SyntaxOk(reqs[i].entry.kind, reqs[i].newText) {
          return RefuseAll(|reqs|, BadSyntax, None), [];
        }
      }
      var changed := Marked(reqs, live);
      PromotedInPlace(live, reqs);
      OneText(reqs);
      if true !in changed {
        reports := seq(|reqs|, i => Unchanged());
        NothingDiffers(reqs, live, w);
        return;
      }
      assert AnyDiffers(reqs, live) by { var i :| 0 <= i < |changed| && changed[i]; }
      PutBackExact(live, reqs);
      reports, actions := SaveChanged(reqs, changed, w, clocks);
    }

    lemma OneText(reqs: seq<Request>)
      ensures DistinctPaths(reqs) ==>
              forall i, j :: 0 <= i < j < |reqs| && reqs[i].entry.path == reqs[j].entry.path ==>
                  reqs[i].newText == reqs[j].newText
    {
    }

    lemma NothingDiffers(reqs: seq<Request>, tree: Tree, w: World)
      requires true !in Marked(reqs, tree)
      ensures !AnyDiffers(reqs, tree) && LintsPass(reqs, tree, w)
      ensures Promote(tree, reqs, Marked(reqs, tree), |reqs|) == tree
    {
      hide Promote;
      var changed := Marked(reqs, tree);
      forall i | 0 <= i < |reqs| ensures !Differs(reqs[i], tree) { assert changed[i] in changed; }
      forall p ensures At(Promote(tree, reqs, changed, |reqs|), p) == At(tree, p) {
        PromotedAt(tree, reqs, changed, |reqs|, p);
      }
      SameEverywhere(Promote(tree, reqs, changed, |reqs|), tree);
    }

    /** The set once it is known readable, with something to change. */
    method SaveChanged(reqs: seq<Request>, changed: seq<bool>, w: World, clocks: seq<nat>)
      returns (reports: seq<Report>, actions: seq<Action>)
      requires |clocks| == |reqs| && changed == Marked(reqs, live) && AnyDiffers(reqs, live) && AllReadable(reqs)
      modifies this
      ensures |reports| == |reqs|
      ensures var promoted := Promote(old(live), reqs, changed, |reqs|);
              if !Promotes(reqs, old(live), w) then
                live == old(live) && Now() == old(Now()) && actions == [] && Undone(reports, reqs, old(live), false)
              else if RollsBack(reqs, old(live), w) then
                && live == Rollback(promoted, reqs, Writes(old(live), reqs, changed, |reqs|))
                && actions == [] && Undone(reports, reqs, old(live), true)
              else
                && live == promoted && SetActions(actions, reqs, old(live), w)
                && Lasting(reports, reqs, old(live), if actions == [] then DidNothing else actions[0])
      ensures Promotes(reqs, old(live), w) ==>
                SetCopied(|reqs|, reports, old(live), reqs, changed, clocks, old(Now()), Now())
    {
      hide SyntaxOk, StagePasses, LeftToLive, Wants, Differs, SetActions, SetCopied, Promote, Rollback, Lasting,
           Undone, Promoted, AllReadable;
      var lint, reload := reqs[0].lint, reqs[0].reload;
      var validation: Option<Validation> := None;
      var lintAfter := false;
      if lint == LintAuto {
        var refused;
        refused, validation, lintAfter := LintSetStaged(reqs, changed, w);
        if refused {
          RefusedUndone(reqs, LintRejected, validation, live);
          return RefuseAll(|reqs|, LintRejected, validation), [];
        }
      }

      var written;
      reports, written := PromoteAll(reqs, changed, clocks, validation);
      ghost var promoted := reports;
      PromotedChanged(promoted, old(live), reqs, changed, validation);

      var verdict := MsValidation(w.live);
      if lintAfter && !verdict.ok && !verdict.timedOut {
        reports := PutBackAll(reqs, written, reports, verdict);
        UndoneAfter(promoted, reports, old(live), reqs, changed, validation, Verdict(w.live));
        actions := [];
      } else {
        reports, actions := Conclude(reqs, changed, reports, reload, w, lintAfter, old(live));
        LastingAfter(promoted, reports, old(live), reqs, changed, validation,
                     if actions == [] then DidNothing else actions[0]);
      }
      SameIdsCopied(promoted, reports, old(live), reqs, changed, clocks, old(Now()), Now());
    }

    lemma RefusedUndone(reqs: seq<Request>, why: Refusal, validation: Option<Validation>, before: Tree)
      requires why != PutBack
      ensures Undone(RefuseAll(|reqs|, why, validation), reqs, before, false)
    {
    }

    lemma PromotedChanged(reports: seq<Report>, tree: Tree, reqs: seq<Request>, changed: seq<bool>,
                          validation: Option<Validation>)
      requires |changed| == |reqs| && Promoted(reports, |reqs|, tree, reqs, changed, validation)
      ensures forall i :: 0 <= i < |reqs| ==> reports[i].changed == changed[i]
    {
      hide Promote;
    }

    lemma UndoneAfter(promoted: seq<Report>, reports: seq<Report>, tree: Tree, reqs: seq<Request>, changed: seq<bool>,
                      validation: Option<Validation>, verdict: Validation)
      requires changed == Marked(reqs, tree) && Promoted(promoted, |reqs|, tree, reqs, changed, validation)
               && |reports| == |reqs|
      requires forall i :: 0 <= i < |reqs| ==>
                 reports[i] == if changed[i]
                               then promoted[i].(changed := false, rolledBack := true, error := Some(PutBack),
                                   validation := Some(verdict))
                               else promoted[i].(validation := Some(verdict))
      ensures Undone(reports, reqs, tree, true)
    {
      hide Promote;
    }

    lemma LastingAfter(promoted: seq<Report>, reports: seq<Report>, tree: Tree, reqs: seq<Request>, changed: seq<bool>,
                       validation: Option<Validation>, action: Action)
      requires changed == Marked(reqs, tree) && Promoted(promoted, |reqs|, tree, reqs, changed, validation)
               && |reports| == |reqs|
      requires forall i :: 0 <= i < |reqs| ==>
                 reports[i].(validation := None)
                     == (if changed[i] then promoted[i].(action := action) else promoted[i]).(validation := None)
      ensures Lasting(reports, reqs, tree, action)
    {
      hide Promote;
    }

    /** The histories' law speaks of the reported ids only. */
    lemma SameIdsCopied(promoted: seq<Report>, reports: seq<Report>, tree: Tree, reqs: seq<Request>, changed: seq<bool>,
                        clocks: seq<nat>, from: Histories, to: Histories)
      requires |reports| == |promoted| == |reqs| == |changed|
      requires forall i :: 0 <= i < |reqs| ==> reports[i].backupId == promoted[i].backupId
      requires SetCopied(|reqs|, promoted, tree, reqs, changed, clocks, from, to)
      ensures SetCopied(|reqs|, reports, tree, reqs, changed, clocks, from, to)
    {
      hide Room, ReadCopy, AllKept, MayCopyAll;
    }
  }
}
