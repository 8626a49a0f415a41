# A verified model of msfe-core's state changes, text formats and decisions

MSFE-NG manages a MailScanner installation: it edits configuration files, keeps
their history, repairs the mail DNS records of the hosted domains and bans
addresses that send spam. This project models the parts of `msfe-core` where a
mistake loses data or changes what a server does to its senders, and proves what
those parts are for.

- **Calendar and stamps** (`Civil`, `CivilText`, with `Decimal` and `StringOrder`):
  the closed day formulas against a calendar that counts years and months one by
  one, and the printed forms whose string order is the order of time.
- **History and the change transaction** (`History`, `ConfRequest`, `SetWrites`, `ConfSave`): a class over the
  live tree and the history directories. Lint verdicts and clocks are arbitrary
  inputs: what happens to the live tree is proved for all of them. Every copy ever
  taken is a ghost log; as long as the clock does not go back, each directory is the
  50 newest entries of its log after any run of saves, set saves and restores, and
  for any clock it is said exactly when a reported copy can be read.
- **Configuration text** (`ConfFile`, `EditorLaws`, `ConfigReader`, `Lens`,
  `EditThenRead`, `ConfStage`, `StageMeaning`, and `EditedLines`, `ReadForms` and
  `StageText` for the characters; with `Text` and `Finding`): the in-place editor,
  the second parser that reads its output with its own comment and quote scanner,
  and the rewriting of a staged configuration.
- **Account DNS** (`Spf`, `SpfMeaning`, `SpfOrder`, `SpfWords`, `JsonScan`, `ZoneTxt`,
  `ScanRegistry`): the suggested SPF record evaluated as RFC 7208 evaluates it, the
  scan that cuts a JSON document (RFC 8259) out of a noisy reply, the replacement of
  TXT records by line number, and the scan registry as a state machine over every
  interleaving of its threads.
- **Auto-ban** (`AutoBan`, `BanReasons`, `RuleIds`, `Durations`): the evaluator against a
  declarative statement of who is banned and why, the ban loop, rule ids that are
  never reused, and durations.
- **Codecs** (`Base64`, `Targets`): base64 (section 4 of RFC 4648) and the
  quote-aware target splitter whose output is joined and split again.

Loops of the source are methods with their invariants, proved equal to a
specification function; the laws are lemmas about those functions. Objects that
change in place (`ConfTree`, `Registry`, `Zone`) are classes. `dafny verify
dfyconfig.toml` checks everything.

## Where the code and what is said of it differ

- `apply` is documented to keep every byte it does not change. Lines that end in
  CR LF lose the CR: an edit of nothing gives a text back exactly when it has none
  (`EditorLaws.UntouchedIff`), and a second edit of the same keys gives what it would
  have given alone exactly when that has none (`EditorLaws.SecondEditWins`).
- `parse` is documented to accept `YYYY-MM-DD` only. It accepts signs: `+999-+1-+1` is
  a date (`CivilText.SignsParse`). An accepted text has the documented form exactly
  when no field carries a sign, and is then what the date prints
  (`CivilText.DateForm`); a printed date comes back for the years -999 to 9999 and no
  others (`CivilText.DisplayParse`).
- A backup is taken so that the change can be undone. When the clock has gone back, a
  copy is pruned as it is taken if 50 present names lie above its own
  (`ConfSave.ConfTree.Backup`, `ConfSave.ConfTree.SaveThenRestore`).
- A set that is rolled back is documented to leave every file as it was. That holds
  exactly when no file is written twice in the set (`SetWrites.PutBackExact`).
- A value is written so that the reader gives it back. That holds exactly of the
  values `Lens.Readable` describes; `a\"#b` is not one (`Lens.UnreadableValue`).
- `suggest_spf` is said never to produce two `v=spf1`. It does, exactly when a record
  names the version again past its first token (`SpfMeaning.OneVersion`); the record
  `v=spf1 a v=spf1 mx` is one (`SpfMeaning.TwoVersions`).
- The suggestion moves `all` to the end, and mechanisms with `=` behind the others.
  The exact records whose senders keep their results are given by
  `SpfOrder.MeaningKeptIff`; those with `=` only in modifiers and `all` after every
  other mechanism are among them (`SpfOrder.RegularKept`).
- Retargeting a staged configuration keeps the last-wins meaning of a key exactly
  where no other value overtakes the last one the rewriting moves
  (`StageMeaning.MeaningKept`, with an example in `StageMeaning.OvertakenExample`).

## Model

| member | source | states |
|---|---|---|
| Civil.ToDaysCounts | crates/msfe-core/src/civil.rs:19-27 | for every valid date of any year the closed formula is the naive count of days from 1970-01-01, years and months counted one by one |
| Civil.FromDaysInverse | crates/msfe-core/src/civil.rs:30-41 | every day number, negative ones included, gives a valid date, and `to_days` takes it back |
| Civil.ToDaysInverse | crates/msfe-core/src/civil.rs:19-41 | every valid date comes back from its day number |
| Civil.RoundTripIffValid | crates/msfe-core/src/civil.rs:62-63 | the check `parse` makes: a triple survives the round trip if and only if it is a date of the calendar |
| Civil.ToDaysMonotone | crates/msfe-core/src/civil.rs:6-27 | the derived order of dates is the order of their day numbers, both ways |
| Civil.NextIsSuccessor | crates/msfe-core/src/civil.rs:48-50 | `next` is the calendar's successor across months, leap days and years |
| CivilText.ParseAcceptsCalendarDates | crates/msfe-core/src/civil.rs:53-64 | a text parses to a date if and only if it has the two dashes, its fields read as the date's numbers, and the date is valid |
| CivilText.DateForm | crates/msfe-core/src/civil.rs:52-64 | a text that parses has the form `YYYY-MM-DD` if and only if no field carries a sign, and it is then what the date prints |
| CivilText.SignsParse | crates/msfe-core/src/civil.rs:52-64 | `+999-+1-+1` parses |
| CivilText.DisplayParse | crates/msfe-core/src/civil.rs:53-71 | a printed date is parsed back if and only if its year is between -999 and 9999 |
| CivilText.StampOrder | crates/msfe-core/src/dbtools.rs:18-30 | before the year 10000 stamps have one width, and their string order is the order of time, equality included |
| CivilText.StampFields | crates/msfe-core/src/dbtools.rs:18-30 | the digits of a stamp: year, month and day of the date whose day count is `secs / 86400`, then hour, minute and second of that day |
| Decimal.ReadsPrinted | crates/msfe-core/src/civil.rs:58-60 | a printed number is read, bare or signed, if and only if it fits the type |
| Decimal.RejectsOthers | crates/msfe-core/src/civil.rs:58-60 | a text with another character past its first is no number |
| History.NextStamp | crates/msfe-core/src/confsave.rs:304-326 | the stamp is the second's own if no copy present claims it, else one number above the highest present for that second |
| History.NameMeans | crates/msfe-core/src/confsave.rs:323-326 | the first copy of a second has the stamp as its name, the next ones a dash and three digits with their number behind it |
| History.NumberMeans | crates/msfe-core/src/confsave.rs:311-318 | the number a present name claims is what stands behind a dash, if it is a 32-bit number, else 0 |
| History.NextNumber | crates/msfe-core/src/confsave.rs:304-326 | in any reachable history the next stamp is the number of copies this second ever had, even after older ones were pruned |
| History.FollowsAbove | crates/msfe-core/src/confsave.rs:304-326 | each new copy's name lies above the name of every earlier copy, pruned or not |
| History.NamesAscend | crates/msfe-core/src/confsave.rs:304-326 | under a clock that never goes back the names of all copies ever taken ascend strictly |
| History.Prune | crates/msfe-core/src/confsave.rs:336-351 | what stays are the 50 highest names with their texts, and nothing else |
| History.PrunedHolds | crates/msfe-core/src/confsave.rs:327-351 | a copy put into a directory that holds the 50 newest copies, then pruned, leaves the 50 newest of the longer log |
| History.BackupKeeps | crates/msfe-core/src/confsave.rs:291-351 | one backup keeps the log regular and the directory its newest end; the copy just taken is above all others and survives the pruning |
| History.PrunedKeeps | crates/msfe-core/src/confsave.rs:336-351 | pruning keeps a copy if and only if fewer than 50 names lie above it |
| History.Take | crates/msfe-core/src/confsave.rs:304-333 | for any directory and clock, the copy just taken stays if and only if it has room; with a clock that has not gone back it is fresh and highest, and the history stays the newest end of its log |
| History.KeptUntil | crates/msfe-core/src/confsave.rs:289-351 | a copy of the log is in the directory, with its text, if and only if fewer than 50 were taken after it |
| History.ListingIsNewest | crates/msfe-core/src/confsave.rs:238-277 | the sorted directory listing is exactly the 50 newest copies in the order they were taken |
| ConfSave.CopyNameServed | crates/msfe-core/src/confsave.rs:279-334 | no name `backup` can give, whatever the clock and the directory, is refused or taken for the legacy original by `read_backup` |
| ConfSave.ReadMeans | crates/msfe-core/src/confsave.rs:279-287 | `original` reads the legacy copy, an empty, hidden or noted name and one with a slash reads nothing, any other safe name the copy it names |
| ConfSave.ConfTree.SyntaxMeans | crates/msfe-core/src/confsave.rs:109-153 | a text passes if and only if it holds no NUL, its kind is editable, and the kind has no parser or the parser takes it |
| ConfSave.ConfTree.Backup | crates/msfe-core/src/confsave.rs:291-334 | no live file, no copy; else one copy is logged and no other history changes, and the live text can be read back under the new name if and only if fewer than 50 present names lie above it; a valid history and a clock that has not gone back make it the highest and keep the history valid |
| ConfSave.ConfTree.ListHistory | crates/msfe-core/src/confsave.rs:238-277 | the names from highest to lowest, then the legacy original; in a valid history these are the newest copies, 50 at most, newest first |
| ConfSave.ConfTree.ReadableUntil | crates/msfe-core/src/confsave.rs:279-351 | after any run a copy ever taken can be read, with its text, if and only if fewer than 50 further ones of its file were taken |
| ConfRequest.MsValidation | crates/msfe-core/src/confsave.rs:756-765 | a run of the engine is accepted if and only if it exits well, reports no problem and ends in time |
| ConfRequest.EngineAction | crates/msfe-core/src/confsave.rs:486-518 | a restart if and only if one is wanted, not skipped and the engine runs; a reload if and only if one is wanted and not skipped; else nothing |
| ConfSave.ConfTree.LintStaged | crates/msfe-core/src/confsave.rs:399-451 | a refusal means exactly that the deciding linter rejected before anything was written, and the verdict is left to the live tree exactly where the stage cannot judge |
| ConfSave.ConfTree.Save | crates/msfe-core/src/confsave.rs:370-528 | for every state, verdict and clock: the text lasts if and only if it differs and every check passes, else the tree is as it was; the first reason is the error; a lasting save restarts a running engine if and only if its entry wants that, reloads if and only if it wants that, and neither when told to skip it; verdict, roll-back, backup id and history follow |
| ConfSave.ConfTree.LastingSave | crates/msfe-core/src/confsave.rs:370-528 | under the linters a lasting text was accepted by the lint that judged it, or the live lint ran out of time; a valid history stays valid and holds the text that was replaced |
| ConfSave.ConfTree.Restore | crates/msfe-core/src/confsave.rs:769-788 | an unreadable stamp changes nothing; else everything a save of that text without an mtime promises, report included |
| ConfSave.ConfTree.SaveThenRestore | crates/msfe-core/src/confsave.rs:370-788 | restoring the backup id of a save that lasted, lint skipped, gives the old tree back if and only if the copy had room and the old text passes the syntax check; a clock that has not gone back makes room |
| ConfSave.ConfTree.RestoreLater | crates/msfe-core/src/confsave.rs:279-788 | restoring any copy ever taken, at any later time: the file holds its text if and only if it did already, or fewer than 50 copies were taken since and the text passes the syntax check |
| ConfSave.ConfTree.LintSetStaged | crates/msfe-core/src/confsave.rs:583-647 | the flags collected over the set decide exactly as the declarative statement of the needed linters, and of what is left to the live tree, does |
| SetWrites.PromotedInPlace | crates/msfe-core/src/confsave.rs:649-680 | promoting puts every requested text in place if and only if requests of one file ask for one text, and moves no other file |
| SetWrites.PutBackExact | crates/msfe-core/src/confsave.rs:649-703 | undoing the remembered writes in order gives the tree the set found if and only if no file was written twice |
| ConfSave.ConfTree.PromoteAll | crates/msfe-core/src/confsave.rs:649-680 | the tree is the fold of the requested writes, each write remembers the text it replaced, and the histories grow by their backups, readable exactly where there is room |
| ConfSave.ConfTree.PutBackAll | crates/msfe-core/src/confsave.rs:685-703 | the loop undoes the writes in order, removing created files; exactly the written files report a roll-back |
| ConfSave.ConfTree.Conclude | crates/msfe-core/src/confsave.rs:705-753 | one restart if some changed file wants one and the engine runs, one reload if none wants a restart and some a reload, else nothing; entered in the changed files' reports only |
| ConfSave.ConfTree.SaveChanged | crates/msfe-core/src/confsave.rs:580-753 | a readable set with changes is refused whole, written, or written and put back, each exactly when the linters say so |
| ConfSave.ConfTree.SaveMany | crates/msfe-core/src/confsave.rs:540-754 | all or nothing for every state, verdict and clock: the set is written if and only if the checks and the needed linters pass, distinct paths then all hold their requested text, and the one engine action is the restart or reload the changed files want; otherwise no report of a change, no engine action, and the original tree exactly unless a file written twice was rolled back; the first unreadable file gives the reason |
| ConfFile.EditPass | crates/msfe-core/src/conffile.rs:91-114 | the loop over the lines is the recursive edit: its lines and what is left to append |
| ConfFile.Apply | crates/msfe-core/src/conffile.rs:87-122 | the edited text is the edited lines, the missing keys appended, joined, with its last line end; the laws below are about this text |
| EditedLines.PlainEdit | crates/msfe-core/src/conffile.rs:69-117 | plain style, every text: the line of a change is its key, ` = ` and its value character for character, where the key's first line stood or, without one, behind the text; it reads as the key and the trimmed, unquoted value |
| EditedLines.TomlEdit | crates/msfe-core/src/conffile.rs:69-117 | TOML style: the key, ` = `, and the value bare if it reads as a 64-bit integer, else escaped between double quotes |
| EditedLines.IntegerMeans | crates/msfe-core/src/conffile.rs:73-75 | which values stand bare: digits, one sign allowed, within 64 bits |
| EditedLines.EscapeMeans | crates/msfe-core/src/conffile.rs:76-76 | escaping puts a backslash before each double quote and keeps everything else |
| EditedLines.AppendedInOrder | crates/msfe-core/src/conffile.rs:115-121 | the edited text has the text's own lines, then one for each change without a line, in order; it ends in a line end if and only if the text did or one was appended |
| EditedLines.UnquoteMeans | crates/msfe-core/src/conffile.rs:49-58 | one pair of equal quotes around a value is taken off, and nothing else |
| EditedLines.OtherLines | crates/msfe-core/src/conffile.rs:23-46 | blank lines, comments and lines without an equals sign are no entries; an entry has a key |
| ConfFile.EditMeans | crates/msfe-core/src/conffile.rs:91-114 | line by line: the first live line of a changed key carries the new value, its later ones are commented out, every other line is kept character for character |
| EditorLaws.EditedText | crates/msfe-core/src/conffile.rs:82-122 | the same of the lines of the edited text, for every text; only a carriage return before a line end is dropped |
| EditorLaws.OneLiveLine | crates/msfe-core/src/conffile.rs:82-122 | after an edit of any text each changed key, found or appended, has exactly one live line |
| EditorLaws.SecondEditWins | crates/msfe-core/src/conffile.rs:87-122 | for every text and both styles, a second edit of the same keys gives what it would have given alone with carriage returns before line ends dropped, so exactly that if and only if it has none |
| EditorLaws.CleanTextEnough | crates/msfe-core/src/conffile.rs:87-122 | it has none when no line of the text ends in a carriage return |
| EditorLaws.LinesOfApplied | crates/msfe-core/src/conffile.rs:115-122 | for every text the lines of the edited text are the edited lines, carriage returns before line ends dropped, and it ends in a line end exactly when the text did or a key was appended |
| EditorLaws.UntouchedIff | crates/msfe-core/src/conffile.rs:82-122 | an edit of nothing gives the text back if and only if no line ends in CR LF |
| ConfigReader.StripComment | crates/msfe-core/src/config.rs:682-701 | the loop's flags cut where the scanner over escape and quote states cuts |
| ConfigReader.ParseFlat | crates/msfe-core/src/config.rs:663-679 | the entries are those of the lines, in order |
| ReadForms.CutStep | crates/msfe-core/src/config.rs:682-701 | character by character where a comment starts: a `#` outside quotes, a backslash between double quotes taking the next character with it |
| ReadForms.ReadSingle | crates/msfe-core/src/config.rs:663-712 | a value in single quotes is read as it stands, `#` included, up to a comment behind it |
| ReadForms.ReadBare | crates/msfe-core/src/config.rs:663-712 | a bare value is read without the white space around it, up to a comment |
| ReadForms.ReadsNothing | crates/msfe-core/src/config.rs:663-679 | blank lines, comments, sections and lines without a key or an equals sign give no entry |
| Lens.KeysAgree | crates/msfe-core/src/config.rs:663-679 | for an identifier key the editor finds the key on a line if and only if the reader does, on any line whatever follows the `=` |
| Lens.ReadBack | crates/msfe-core/src/conffile.rs:69-80 | a written change is read as its key, and as its value if and only if the value is an integer or shows the comment scanner no live `#` |
| Lens.SafeWhen | crates/msfe-core/src/config.rs:682-701 | it is enough that no backslash stands directly before a double quote, or that there is no `#` |
| Lens.UnreadableValue | crates/msfe-core/src/config.rs:682-712 | the value `a\"#b` is not readable |
| EditThenRead.ReadJoined | crates/msfe-core/src/config.rs:663-679 | joining lines and cutting the text again reads the same, carriage returns included |
| EditThenRead.EditThenRead | crates/msfe-core/src/conffile.rs:87-122 | for any text and distinct identifier keys with one-line values, the reader finds each changed key exactly once, with the written value if and only if it is readable, and every other entry unchanged in order |
| EditThenRead.EditThenLoad | crates/msfe-core/src/config.rs:312-330 | last-wins loading sees each edit if and only if its value is readable, and of every other key what it saw before |
| ConfStage.RewriteConf | crates/msfe-core/src/confstage.rs:57-91 | both loops and the final edit give the text the laws below are about |
| StageText.PathMeans | crates/msfe-core/src/confstage.rs:43-48 | under a directory are the directory itself and what follows it after a slash, nothing else |
| StageText.DefinesMeans | crates/msfe-core/src/confstage.rs:65-76 | the lines the first pass rewrites are exactly the definitions of a `%name%` with a path under the live directory, and they become name, ` = ` and the path under the stage |
| StageText.EachLineText | crates/msfe-core/src/confstage.rs:57-91 | for every text, as many lines as before, and each of them, white space at its end aside: a live value of its key moved, a comment, or the line itself with a variable's path moved |
| StageText.SameEnd | crates/msfe-core/src/confstage.rs:77-91 | the text ends in a line end if and only if it did |
| ConfStage.NothingStaysLive | crates/msfe-core/src/confstage.rs:57-91 | for every text and directories apart, no variable and no directive of the rewritten text is under the live directory |
| ConfStage.RewriteIdempotent | crates/msfe-core/src/confstage.rs:57-91 | for every text, rewriting a rewritten text only drops carriage returns before line ends, so it changes nothing if and only if there are none |
| ConfStage.CleanRewrite | crates/msfe-core/src/confstage.rs:57-91 | there are none when no line of the text and no moved value ends in a carriage return |
| StageMeaning.EachLine | crates/msfe-core/src/confstage.rs:57-91 | for every text and whatever keys repeat: the lines of a key with values under the live directory read as those values, moved, in order, its further lines are comments, and every other line reads as it did, a variable definition under the live directory moved |
| StageMeaning.EachLineMoved | crates/msfe-core/src/confstage.rs:57-91 | so with distinct live keys every line reads as before with a value under the live directory prefix-swapped |
| ConfStage.SameId | crates/msfe-core/src/confstage.rs:181-191 | a live path and its staged form have one catalog id, and have one exactly when below the directory |
| StageText.IdMeans | crates/msfe-core/src/confstage.rs:181-191 | the id is `ms:` and the path below either directory; other paths have none |
| StageMeaning.LastValue | crates/msfe-core/src/confstage.rs:57-91 | for every text: the last value of a key under the live directory that is no variable definition, moved, is what the staged text says of the key; with none the key says what it said, moved |
| StageMeaning.MeaningKept | crates/msfe-core/src/confstage.rs:57-91 | the last-wins meaning of a key is kept, moved to the stage, if and only if no other value of the text overtakes the last one the rewriting moves |
| StageMeaning.OvertakenExample | crates/msfe-core/src/confstage.rs:57-91 | a text of two lines whose key means another thing on the stage |
| Spf.SuggestSpf | crates/msfe-core/src/acctdns.rs:958-1008 | the loops over records and tokens give the record the laws below are about |
| SpfWords.FirstRecord | crates/msfe-core/src/acctdns.rs:943-966 | with nothing published the words are the version, `+mx`, `+a`, the mechanism to add and `~all`; that mechanism is the trimmed expectation, else `ip4:` or `ip6:` and the server's address, else none |
| SpfWords.SuggestedFrom | crates/msfe-core/src/acctdns.rs:943-1007 | no published word but `all` is lost, up to case, the mechanism to add is there, and every other word comes from the records, their first `all` or `~all` |
| SpfWords.WordKept | crates/msfe-core/src/acctdns.rs:975-990 | every word of a record but a version at its start is among the words that are merged |
| SpfWords.SuggestionNoRepeats | crates/msfe-core/src/acctdns.rs:970-1007 | however many records are merged, no word after the version comes twice, up to case |
| SpfWords.RecordsAsOne | crates/msfe-core/src/acctdns.rs:975-990 | several records are merged as one whose tokens are theirs in order |
| SpfWords.SuggestionFor | crates/msfe-core/src/acctdns.rs:943-1008 | what the suggestion for one record means to every sender, the added mechanism named by its text |
| SpfWords.AllTerms | crates/msfe-core/src/acctdns.rs:934-939 | an `all` term is that word in any case with at most one qualifier |
| SpfMeaning.SuggestionDecides | crates/msfe-core/src/acctdns.rs:967-1006 | for any one record and every sender: the mechanisms without `=` are asked in order, then the added one, then those with it, then the default, neutral becoming softfail where there was neither `all` nor a redirect |
| SpfMeaning.SuggestionMeaning | crates/msfe-core/src/acctdns.rs:975-1006 | with `=` only in modifiers and `all` last: matched by an old mechanism, the old result; matched by the added one only, its qualifier; else the old default, softfail for neutral |
| SpfMeaning.SuggestedRecordMeaning | crates/msfe-core/src/acctdns.rs:958-1008 | the same from published text to suggested text |
| SpfMeaning.OneAll | crates/msfe-core/src/acctdns.rs:955-1008 | however many records are merged, one `all` at the end, or none exactly when a redirect decides |
| SpfMeaning.OneVersion | crates/msfe-core/src/acctdns.rs:955-1008 | the version is named once if and only if no record named it past its first token |
| SpfMeaning.TwoVersions | crates/msfe-core/src/acctdns.rs:955-1008 | a record whose suggestion names the version twice |
| SpfMeaning.AllFirstChangesMeaning | crates/msfe-core/src/acctdns.rs:980-1006 | a record that puts `all` first: the suggestion passes a sender the record failed |
| SpfOrder.MeaningKeptIff | crates/msfe-core/src/acctdns.rs:955-1008 | for every one record, every sender gets what the suggestion promises if and only if any two terms that can decide for one sender, one in the record and one in the suggestion, say the same |
| SpfOrder.RegularKept | crates/msfe-core/src/acctdns.rs:955-1008 | records with `=` only in modifiers and `all` after every other mechanism are kept for every sender |
| JsonScan.ParseApiOutput | crates/msfe-core/src/acctdns.rs:563-593 | the whole reply if it parses, else the text up to where the depth first returns to zero; the depth never underflows on any text |
| JsonScan.ScanDoc | crates/msfe-core/src/acctdns.rs:570-592 | any document nested anywhere, strings with braces, quotes and backslashes included, leaves depth, string and escape state as they were |
| JsonScan.DocumentEnd | crates/msfe-core/src/acctdns.rs:570-592 | for every object and any text after it, the depth first returns to zero exactly at the object's closing brace |
| JsonScan.DocumentExtracted | crates/msfe-core/src/acctdns.rs:567-592 | what is handed to the parser is the document, not a character less or more, whatever white space precedes and text follows |
| ZoneTxt.DmarcZoneLines | crates/msfe-core/src/acctdns.rs:1472-1497 | exactly the line numbers of the TXT records at the name, strictly descending |
| ZoneTxt.MatchesMeans | crates/msfe-core/src/acctdns.rs:1473-1492 | kind and name are compared without case, names without the dots at their ends; other lines never match |
| ZoneTxt.RemoveHighest | crates/msfe-core/src/acctdns.rs:2152-2160 | removing the highest listed line keeps the remaining numbers right and every other record in order |
| ZoneTxt.Zone.InstallTxt | crates/msfe-core/src/acctdns.rs:2147-2173 | with every call succeeding, the zone becomes the old lines that were not TXT records at the name, in order, and the requested record |
| ZoneTxt.ExactlyOne | crates/msfe-core/src/acctdns.rs:2147-2173 | that zone has exactly one TXT record at the name, the requested one |
| ScanRegistry.Registry.Start | crates/msfe-core/src/acctdns.rs:2861-2875 | Busy with the holder's id, and nothing changed, if and only if an unfinished scan started less than 1800 seconds ago holds the slot; else the slot holds the new, empty scan, started now |
| ScanRegistry.Registry.AddChunk | crates/msfe-core/src/acctdns.rs:2883-2895 | the holder's rows grow by the chunk and its errors by the new ones; any other thread changes nothing and is told to stop |
| ScanRegistry.MergedOne | crates/msfe-core/src/acctdns.rs:2886-2890 | errors are kept in the order they first came, each once |
| ScanRegistry.Registry.Finish | crates/msfe-core/src/acctdns.rs:2900-2905 | only the holder is marked done, as of now, and nothing else of it changes |
| ScanRegistry.Registry.UpdateRow | crates/msfe-core/src/acctdns.rs:2783-2791 | in a finished scan the first row of the domain becomes the given one, or that comes last, and every other row stays; a running scan is left alone |
| ScanRegistry.UpdateShows | crates/msfe-core/src/acctdns.rs:2783-2811 | in every run, after an update of a finished scan the row given is in it and every other row is as it was |
| ScanRegistry.Registry.ReplaceRow | crates/msfe-core/src/acctdns.rs:2802-2811 | the first row of the domain is the given one and all others are as they were; without one the given row comes last |
| ScanRegistry.ChunkSize | crates/msfe-core/src/acctdns.rs:55-55 | a chunk is what is left to check, up to 25 domains |
| ScanRegistry.Registry.Reset | crates/msfe-core/src/acctdns.rs:2914-2916 | the slot is empty |
| ScanRegistry.RunInv | crates/msfe-core/src/acctdns.rs:2783-2916 | the invariant that ties the slot to the threads holds in every state of every interleaving |
| ScanRegistry.RunningRows | crates/msfe-core/src/acctdns.rs:2880-2899 | in every reachable state a running scan's rows are exactly its own thread's completed chunks in order, one row for each domain reported |
| ScanRegistry.FinishedComplete | crates/msfe-core/src/acctdns.rs:2900-2905 | the only step that sets `done` is the thread's own last one, and it leaves one row per requested domain in order |
| ScanRegistry.FinishedKept | crates/msfe-core/src/acctdns.rs:2783-2811 | whatever rows are updated later, a finished scan keeps a row for each requested domain in its place |
| ScanRegistry.SupersededForever | crates/msfe-core/src/acctdns.rs:2861-2898 | a thread whose scan was replaced or forgotten never holds the slot again |
| ScanRegistry.SupersededHarmless | crates/msfe-core/src/acctdns.rs:2883-2905 | no later step of such a thread changes the slot, and the thread ends at it |
| ScanRegistry.OnlyItsThread | crates/msfe-core/src/acctdns.rs:2783-2916 | while a scan runs, no step but its thread's changes it, short of a reset or a takeover once it is stale |
| AutoBan.Judge | crates/msfe-core/src/autoban.rs:415-481 | the counts and the clean flag decide as the declarative statement of a qualifying rule does |
| AutoBan.BestFor | crates/msfe-core/src/autoban.rs:409-485 | the longest ban among the qualifying rules, the earliest of high, spam, match rules on a tie; none exactly when no rule qualifies |
| AutoBan.GroupByIp | crates/msfe-core/src/autoban.rs:400-405 | the senders strictly ascending, each with exactly its own rows in order |
| AutoBan.Evaluate | crates/msfe-core/src/autoban.rs:399-488 | strictly ascending by address, exactly the senders some enabled rule qualifies, each with its best rule's candidate |
| BanReasons.HighSpamRule | crates/msfe-core/src/autoban.rs:420-455 | high spam calls for a ban if and only if it is enabled, as many high-spam rows of the sender as asked lie in the window, and none of its rows there is clean; count, ban and the newest counted row's id are the candidate's |
| BanReasons.SpamRule | crates/msfe-core/src/autoban.rs:420-455 | the same of rows that are spam but no high spam |
| BanReasons.MatchedRule | crates/msfe-core/src/autoban.rs:457-481 | a match rule calls for a ban if and only if it is enabled, has a ban, and one row of the last hour names it, with no clean row there |
| BanReasons.CandidateReason | crates/msfe-core/src/autoban.rs:399-488 | what a candidate's reason says of the log: its rule was on, its rows were there, and none was clean |
| AutoBan.BestUnique | crates/msfe-core/src/autoban.rs:410-414 | the best rule is decided: two best rules are one |
| AutoBan.OwnRowsDecide | crates/msfe-core/src/autoban.rs:399-488 | two logs that agree on a sender's rows give it the same candidate |
| AutoBan.OtherRowsIrrelevant | crates/msfe-core/src/autoban.rs:399-488 | another sender's row, put in anywhere, leaves a sender's rows as they were |
| AutoBan.Merge | crates/msfe-core/src/autoban.rs:603-612 | one candidate per address of either source, the longest ban of both, the log's own on a tie, no address lost |
| AutoBan.BanLoop | crates/msfe-core/src/autoban.rs:626-689 | banned are the first 100 candidates that pass every safeguard and the firewall takes; skipped are, in order, exactly the others, each with the first safeguard that stopped it, the limit, or the refusal |
| AutoBan.EligibleSafe | crates/msfe-core/src/autoban.rs:626-677 | a candidate is eligible if and only if it is a valid target, not recently banned, on neither list, and the firewall takes the ban |
| RuleIds.SaveRules | crates/msfe-core/src/autoban.rs:321-350 | the loop gives the ids and the next id the laws below are about |
| RuleIds.LoadMeans | crates/msfe-core/src/autoban.rs:297-313 | a stored list is loaded as it is, with a next id no lower than the stored one and above every rule's |
| RuleIds.StoredKeeps | crates/msfe-core/src/autoban.rs:325-338 | whatever is saved, every rule keeps its place and text, its id and its date of creation where it had them |
| RuleIds.SaveGood | crates/msfe-core/src/autoban.rs:292-350 | one save keeps ids distinct and below the next id; known rules keep theirs, new ones get ids none had |
| RuleIds.RunGood | crates/msfe-core/src/autoban.rs:289-350 | in every store of every run the next id lies above every id of every earlier store |
| RuleIds.NeverReused | crates/msfe-core/src/autoban.rs:289-350 | no new rule gets an id any rule ever had, a deleted one included |
| RuleIds.NextIdCounts | crates/msfe-core/src/autoban.rs:292-350 | the next id is one more than the number of rules ever added, so 32 bits hold it as long as they hold that count |
| Durations.ParseWithUnit | crates/msfe-core/src/autoban.rs:30-44 | a printed number with a unit reads as its seconds if and only if they fit 64 bits |
| Durations.FormatParse | crates/msfe-core/src/autoban.rs:30-55 | every 64-bit duration is read back from what it prints |
| Durations.ParseForms | crates/msfe-core/src/autoban.rs:30-44 | a number is read bare and with each of the four units |
| Durations.ParseSpaced | crates/msfe-core/src/autoban.rs:30-44 | white space around does not count; nothing, and another unit, is refused |
| Durations.LargestUnit | crates/msfe-core/src/autoban.rs:46-55 | the unit printed divides the duration and no larger one does; zero prints in seconds |
| Base64.Encode | crates/msfe-core/src/b64.rs:7-30 | the chunks' shifts and masks give the sextets of section 4 of RFC 4648, padded |
| Base64.Decode | crates/msfe-core/src/b64.rs:45-68 | the accumulator loop gives the whole bytes of the symbols, `None` exactly on another character or one symbol too many |
| Base64.NothingOverflows | crates/msfe-core/src/b64.rs:47-62 | after any symbols fewer than `bits` bits are pending, `bits` is 0, 2, 4 or 6, and one symbol more makes at most 12 bits |
| Base64.RoundTrip | crates/msfe-core/src/b64.rs:7-68 | every spelling of an encoding decodes to the data: white space anywhere, padding dropped, `-_` for `+/` |
| Base64.AlphabetSymbols | crates/msfe-core/src/b64.rs:5-5 | the symbols are the alphabet of section 4 of RFC 4648 in order |
| Base64.GroupNumber | crates/msfe-core/src/b64.rs:9-27 | three bytes and their four sextets are one number, a short end filled with zero bits |
| Base64.DecoderAlphabet | crates/msfe-core/src/b64.rs:32-52 | which characters are symbols and which white space, both alphabets |
| Base64.DecodeRefuses | crates/msfe-core/src/b64.rs:43-67 | a text is refused if and only if another character stands before the padding, or one symbol is left over |
| Base64.BytesOfSextets | crates/msfe-core/src/b64.rs:7-68 | regrouping bytes to sextets and back loses nothing at any length |
| Base64.AlphabetVal | crates/msfe-core/src/b64.rs:32-41 | each symbol of the alphabet has its own value back |
| Base64.EncodedLength | crates/msfe-core/src/b64.rs:7-30 | four characters for every three bytes begun |
| Targets.SplitTargets | crates/msfe-core/src/cpaudit.rs:228-253 | the loop is the recursive splitter the laws below are about |
| Targets.SplitAtComma | crates/msfe-core/src/cpaudit.rs:228-253 | a piece without commas outside quotes, a comma and any text split into the trimmed piece, unless blank, and the split of that text |
| Targets.SplitOne | crates/msfe-core/src/cpaudit.rs:228-253 | a text without commas outside quotes is its own trim, or nothing |
| Targets.FirstComma | crates/msfe-core/src/cpaudit.rs:228-253 | every other text is such a piece, a comma and a rest, so the two laws split every text |
| Targets.WholeMeans | crates/msfe-core/src/cpaudit.rs:231-238 | commas outside quotes are those after an even number of double quotes |
| Targets.SplitGivesTargets | crates/msfe-core/src/cpaudit.rs:228-253 | whatever the text, what comes out is trimmed, not empty, without a comma outside quotes, and only the last may leave a quote open |
| Targets.SplitJoined | crates/msfe-core/src/cpaudit.rs:729-729 | such targets, joined with a comma and a space, split into themselves |
| Targets.SplitJoinSplit | crates/msfe-core/src/cpaudit.rs:228-253 | splitting, joining and splitting again loses nothing, for every text |
| Targets.AliasLine | crates/msfe-core/src/cpaudit.rs:210-225 | a line of the file gives the trimmed local part and the targets after the first colon; blank lines, comments and lines without a colon give nothing |
| Targets.FactText | crates/msfe-core/src/cpaudit.rs:724-731 | the fact is the local part, a colon and a space, the targets with a comma and a space between |
| Targets.FactReadBack | crates/msfe-core/src/cpaudit.rs:723-879 | the alias line one audit task writes is read by the other as the alias it was |

## Left out

- Process execution, file modes and ownership, `.meta` files, MySQL, Telegram, DNS, SMTP, `whmapi1` and csf calls: their answers are parameters or arbitrary inputs.
- I/O errors in the middle of a promotion or a roll-back: the code returns at once without undoing earlier writes, so no law holds there. Likewise a zone call that fails between removals and the addition.
- Existing files that are not readable as text: a roll-back of a set removes them.
- The history's order needs a clock that has not gone back, a year below 10000 and fewer than 1000 copies of a file in one second; a foreign file whose name claims the 32-bit maximum as its number would overflow the source's counter, which is not modelled.
- The line parsers behind `syntax_check` and the filters that pick problem lines out of lint transcripts: arbitrary predicates.
- Copying the live directory to the stage and following its symbolic links: the stage's refusal of a path is an arbitrary set.
- The meaning of a suggestion made of several records: for senders RFC 7208 makes several records an error.
- JSON parsing itself: an arbitrary partial function. Documents are given by their concrete syntax; that numbers and literals are well formed is not needed by the scan.
- ZoneTxt.Zone.InstallTxt: one record a line; records that span several lines of a zone file are not modelled, nor are the record's checks before it is installed.
- ScanRegistry.RunInv: that a chunk yields one row per domain in order is given, as the validator's loop pushes one row per domain; ids of scans are fresh, as random ones are taken to be.
- The copy of a finished scan on disk: it holds whatever finished scan is in memory.
- Counting a threshold over several auto-ban runs: each run evaluates the rows it is given. The rows' SQL and the parsing of spam reports are left out.
- Integer widths where no limit is near: day numbers and years beyond 32 bits, sums of timestamps, counters of rows. Rule ids are covered by RuleIds.NextIdCounts, the product in `parse_secs` wraps as it does in a release build.
- Base64 shifts and masks are arithmetic on numbers, the alphabet a function; CivilText and StringOrder work on bytes as characters.
- `from_toml_str` after the last-wins fold: the conversions of single settings and their clamps.
- The command line, the JSON views, message texts, report details and the check catalogues: long tables of easy cases.
