/** What a configuration save is asked, what the world answers and what is reported
    (confsave.rs); a set of requests over the live tree. */
module ConfRequest {
  import opened Options

  datatype Kind = KeyValue | PlainText | FilenameRules | SpamLists | VirusScanners | HostList | RuleTable | ReadOnly
  datatype Validator = MsLint | SaLint | MsLintAfter | SyntaxOnly | TomlLoad
  datatype ReloadKind = WantsRestart | WantsReload | WantsNothing
  datatype LintMode = LintAuto | LintSkip
  datatype ReloadMode = ReloadAuto | ReloadSkip
  datatype Root = Ms | OtherRoot

  datatype Entry = Entry(path: string, kind: Kind, root: Root, validator: Validator, reload: ReloadKind)

  datatype Request = Request(entry: Entry, newText: string, lint: LintMode, reload: ReloadMode,
      expectMtime: Option<nat>)

  /** One run of a linter: its exit status, whether its transcript reports
      problems, whether it ran out of time, whether it names the staged conf. */
  datatype LintRun = LintRun(ok: bool, problems: bool, timedOut: bool, namesStaged: bool) {
    ghost predicate Accepts() { ok && !problems && !timedOut }
  }

  /** What the world answers during a save. */
  datatype World = World(
    staged: LintRun,            // the engine on the staged conf
    spamassassin: LintRun,      // SpamAssassin on the staged preferences
    live: LintRun,              // the engine on the live conf, after apply
    unstageable: set<string>,   // paths the stage refuses (behind a symlink)
    mtime: nat,                 // of the live file, when there is one
    engineActive: bool)

  datatype Tool = MailScanner | SpamAssassin
  datatype Validation = Validation(tool: Tool, ok: bool, timedOut: bool)
  datatype Action = DidNothing | DidRestart | DidReload
  datatype Refusal = NotEditable | Stale | BadSyntax | LintRejected | PutBack

  datatype Report = Report(
    changed: bool, backupId: Option<string>, validation: Option<Validation>,
    action: Action, rolledBack: bool, error: Option<Refusal>)

  function Unchanged(): Report {
    Report(false, None, None, DidNothing, false, None)
  }

  function Refused(why: Refusal, validation: Option<Validation>): Report {
    Report(false, None, validation, DidNothing, false, Some(why))
  }

  ghost function Verdict(run: LintRun): Validation {
    Validation(MailScanner, run.Accepts(), run.timedOut)
  }

  /** The engine judged the stage: it named the staged conf, or never finished. */
  ghost predicate StageJudged(w: World) {
    w.staged.timedOut || w.staged.namesStaged
  }

  ghost predicate LiveTolerates(w: World) {
    w.live.Accepts() || w.live.timedOut
  }

  ghost predicate SaAccepts(w: World) {
    w.spamassassin.ok && !w.spamassassin.problems
  }

  ghost predicate LintsEngine(e: Entry) {
    e.root == Ms && (e.validator == MsLint || e.validator == MsLintAfter)
  }

  /** The verdict on one run of the engine. */
  method MsValidation(run: LintRun) returns (validation: Validation)
    ensures validation == Verdict(run) && validation.tool == MailScanner && validation.timedOut == run.timedOut
    ensures validation.ok <==> run.ok && !run.timedOut && !run.problems
  {
    validation := Validation(MailScanner, run.ok && !run.problems && !run.timedOut, run.timedOut);
  }

  /** What is done to the engine for a change that lasts. */
  method EngineAction(want: ReloadKind, mode: ReloadMode, active: bool) returns (action: Action)
    ensures action == DidRestart <==> mode == ReloadAuto && want == WantsRestart && active
    ensures action == DidReload <==> mode == ReloadAuto && want == WantsReload
  {
    if mode == ReloadSkip {
      action := DidNothing;
    } else {
      match want {
        case WantsRestart => action := if active then DidRestart else DidNothing;
        case WantsReload => action := DidReload;
        case WantsNothing => action := DidNothing;
      }
    }
  }

  // ---- a tree ---------------------------------------------------------------------

  type Tree = map<string, string>

  function At(tree: Tree, p: string): Option<string> {
    if p in tree then Some(tree[p]) else None
  }

  /** The file at `p` made what it is in `from`. */
  function Put(tree: Tree, p: string, text: Option<string>): Tree {
    match text case Some(t) => tree[p := t] case None => tree - {p}
  }

  lemma SameEverywhere(a: Tree, b: Tree)
    requires forall p :: At(a, p) == At(b, p)
    ensures a == b
  {
    assert forall p :: p in a <==> p in b by { forall p ensures p in a <==> p in b { assert At(a, p) == At(b, p); } }
    forall p | p in a ensures a[p] == b[p] { assert At(a, p) == At(b, p); }
  }

  // ---- a set of requests --------------------------------------------------------

  ghost predicate Differs(r: Request, live: Tree) {
    At(live, r.entry.path) != Some(r.newText)
  }

  /** Which files of the set differ from the tree. */
  function Marked(reqs: seq<Request>, tree: Tree): (changed: seq<bool>)
    ensures |changed| == |reqs| && forall i :: 0 <= i < |reqs| ==> changed[i] == Differs(reqs[i], tree)
  {
    seq(|reqs|, i requires 0 <= i < |reqs| =>
      reqs[i].entry.path !in tree || tree[reqs[i].entry.path] != reqs[i].newText)
  }

  ghost predicate DistinctPaths(reqs: seq<Request>) {
    forall i, j :: 0 <= i < j < |reqs| ==> reqs[i].entry.path != reqs[j].entry.path
  }

  /** No file is written twice. */
  ghost predicate DistinctWrites(reqs: seq<Request>, changed: seq<bool>)
    requires |changed| == |reqs|
  {
    forall i, j :: 0 <= i < j < |reqs| && changed[i] && changed[j] ==> reqs[i].entry.path != reqs[j].entry.path
  }

  /** Some file of the set that changes is the engine's to judge on the stage. */
  ghost predicate NeedsStage(reqs: seq<Request>, live: Tree, w: World) {
    exists i :: 0 <= i < |reqs| && Differs(reqs[i], live) && LintsEngine(reqs[i].entry)
                && reqs[i].entry.path !in w.unstageable
  }

  /** Some file that changes can only be judged where it lives. */
  ghost predicate NeedsLive(reqs: seq<Request>, live: Tree, w: World) {
    exists i :: 0 <= i < |reqs| && Differs(reqs[i], live) && LintsEngine(reqs[i].entry)
                && (reqs[i].entry.path in w.unstageable || reqs[i].entry.validator == MsLintAfter)
  }

  ghost predicate NeedsSa(reqs: seq<Request>, live: Tree) {
    exists i :: 0 <= i < |reqs| && Differs(reqs[i], live) && reqs[i].entry.root == Ms
        && reqs[i].entry.validator == SaLint
  }

  /** Every linter asked before anything is written let the set pass. */
  ghost predicate StagePasses(reqs: seq<Request>, live: Tree, w: World) {
    && (NeedsStage(reqs, live, w) && StageJudged(w) ==> w.staged.Accepts())
    && (NeedsSa(reqs, live) ==> SaAccepts(w))
  }

  /** The live tree is linted once more when the set is in place. */
  ghost predicate LeftToLive(reqs: seq<Request>, live: Tree, w: World) {
    NeedsLive(reqs, live, w) || (NeedsStage(reqs, live, w) && !StageJudged(w))
  }

  /** Every linter the set needs let it pass. */
  ghost predicate LintsPass(reqs: seq<Request>, live: Tree, w: World) {
    StagePasses(reqs, live, w) && (LeftToLive(reqs, live, w) ==> LiveTolerates(w))
  }

  ghost predicate Wants(reqs: seq<Request>, live: Tree, kind: ReloadKind) {
    exists i :: 0 <= i < |reqs| && Differs(reqs[i], live) && reqs[i].entry.reload == kind
  }

  ghost predicate AnyDiffers(reqs: seq<Request>, live: Tree) {
    exists i :: 0 <= i < |reqs| && Differs(reqs[i], live)
  }

  /** The engine actions a set calls for: a restart, if some changed file wants one, else a reload, if
      some wants that; no restart where no engine runs, and nothing when told to skip it. */
  ghost predicate SetActions(actions: seq<Action>, reqs: seq<Request>, live: Tree, w: World)
    requires reqs != []
  {
    var auto := reqs[0].reload == ReloadAuto;
    if auto && Wants(reqs, live, WantsRestart) && w.engineActive then actions == [DidRestart]
    else if auto && !Wants(reqs, live, WantsRestart) && Wants(reqs, live, WantsReload) then actions == [DidReload]
    else actions == []
  }
}
