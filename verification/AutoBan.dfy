/** Which addresses the mail log calls for banning, and which of them are banned
    (autoban.rs). */
module AutoBan {
  import opened Options
  import opened Finding
  import opened StringOrder
  import opened Text

  /** One log row; `matched` are the match rules its spam report names. */
  datatype Row = Row(id: nat, ts: nat, ip: string, isSpam: bool, isHighSpam: bool, matched: seq<nat>)

  datatype Threshold = Threshold(enabled: bool, count: nat, window: nat, ban: nat)
  datatype Rules = Rules(high: Threshold, spam: Threshold)
  datatype MatchRule = MatchRule(id: nat, enabled: bool, ban: nat)

  /** A match rule bans on the first message; this is the window it is judged in. */
  const MATCH_WINDOW_SECS := 3600

  /** Bans per run. */
  const MAX_BANS_PER_RUN := 100

  datatype Reason = HighSpam | Spam | Matched | Smtp

  datatype Candidate = Candidate(ip: string, reason: Reason, ruleId: Option<nat>, count: nat, seconds: nat,
      sampleId: nat)

  // ---- the rules, one list -------------------------------------------------------------

  /** A rule of any kind: how many hits it needs in its window, and for how long it bans. */
  datatype BanRule = BanRule(reason: Reason, ruleId: Option<nat>, active: bool, needed: nat, window: nat, seconds: nat)

  function ThresholdRule(reason: Reason, t: Threshold): BanRule {
    BanRule(reason, None, t.enabled, t.count, t.window, t.ban)
  }

  function MatchBan(m: MatchRule): BanRule {
    BanRule(Matched, Some(m.id), m.enabled && m.ban > 0, 1, MATCH_WINDOW_SECS, m.ban)
  }

  /** High spam, spam, then the match rules as listed. */
  function AllRules(rules: Rules, matches: seq<MatchRule>): (all: seq<BanRule>)
    ensures |all| == |matches| + 2
    ensures all[0] == ThresholdRule(HighSpam, rules.high) && all[1] == ThresholdRule(Spam, rules.spam)
    ensures forall i :: 0 <= i < |matches| ==> all[i + 2] == MatchBan(matches[i])
  {
    [ThresholdRule(HighSpam, rules.high), ThresholdRule(Spam, rules.spam)]
    + seq(|matches|, i requires 0 <= i < |matches| => MatchBan(matches[i]))
  }

  predicate InWindow(r: Row, window: nat, now: nat) {
    r.ts + window >= now
  }

  /** A message that counts against its sender under the rule. */
  predicate Hits(r: Row, rule: BanRule, now: nat) {
    && InWindow(r, rule.window, now)
    && match rule.reason
       case HighSpam => r.isHighSpam
       case Spam => r.isSpam && !r.isHighSpam
       case _ => rule.ruleId.Some? && rule.ruleId.value in r.matched
  }

  /** A message that speaks for its sender. */
  predicate Clean(r: Row, window: nat, now: nat) {
    InWindow(r, window, now) && !r.isSpam && !r.isHighSpam && r.matched == []
  }

  function HitRows(rows: seq<Row>, rule: BanRule, now: nat): seq<Row> {
    if rows == [] then [] else (if Hits(rows[0], rule, now) then [rows[0]] else []) + HitRows(rows[1..], rule, now)
  }

  predicate AnyClean(rows: seq<Row>, window: nat, now: nat) {
    exists i :: 0 <= i < |rows| && Clean(rows[i], window, now)
  }

  /** The rule calls for banning the sender of these rows. */
  predicate Qualifies(rows: seq<Row>, rule: BanRule, now: nat) {
    rule.active && |HitRows(rows, rule, now)| >= rule.needed && !AnyClean(rows, rule.window, now)
  }

  function NewestId(rows: seq<Row>): nat {
    if rows == [] then 0 else var m := NewestId(rows[1..]); if rows[0].id > m then rows[0].id else m
  }

  function CandidateOf(ip: string, rows: seq<Row>, rule: BanRule, now: nat): Candidate {
    var hits := HitRows(rows, rule, now);
    Candidate(ip, rule.reason, rule.ruleId, |hits|, rule.seconds, NewestId(hits))
  }

  /** Among the first `n` rules, rule `k` bans longest, and earliest of those. */
  predicate IsBest(rows: seq<Row>, all: seq<BanRule>, now: nat, n: nat, k: nat)
    requires n <= |all|
  {
    && k < n && Qualifies(rows, all[k], now)
    && forall j :: 0 <= j < n && Qualifies(rows, all[j], now) ==>
         all[j].seconds <= all[k].seconds && (j < k ==> all[j].seconds < all[k].seconds)
  }

  /** The rows of one sender. */
  function RowsOf(rows: seq<Row>, ip: string): seq<Row> {
    if rows == [] then [] else (if rows[0].ip == ip then [rows[0]] else []) + RowsOf(rows[1..], ip)
  }

  lemma {:induction false} RowsOfConcat(a: seq<Row>, b: seq<Row>, ip: string)
    ensures RowsOf(a + b, ip) == RowsOf(a, ip) + RowsOf(b, ip)
  {
    hide RowsOf;
    if a == [] {
      NoRows(ip);
      assert a + b == b && [] + RowsOf(b, ip) == RowsOf(b, ip);
    } else {
      RowsOfConcat(a[1..], b, ip);
      assert a + b == [a[0]] + (a[1..] + b) && a == [a[0]] + a[1..];
      RowsOfHead(a[0], a[1..] + b, ip);
      RowsOfHead(a[0], a[1..], ip);
      Associative(if a[0].ip == ip then [a[0]] else [], RowsOf(a[1..], ip), RowsOf(b, ip));
    }
  }

  lemma NoRows(ip: string)
    ensures RowsOf([], ip) == []
  {
  }

  lemma RowsOfHead(row: Row, rest: seq<Row>, ip: string)
    ensures RowsOf([row] + rest, ip) == (if row.ip == ip then [row] else []) + RowsOf(rest, ip)
  {
    assert ([row] + rest)[1..] == rest;
  }

  // ---- the evaluation --------------------------------------------------------------------

  /** No rule calls for a ban on these rows. */
  ghost predicate NoneQualifies(rows: seq<Row>, all: seq<BanRule>, now: nat) {
    forall k :: 0 <= k < |all| ==> !Qualifies(rows, all[k], now)
  }

  /** The sender's longest ban, by the earliest rule on a tie. */
  method BestFor(ip: string, rows: seq<Row>, all: seq<BanRule>, now: nat) returns (best: Option<Candidate>)
    ensures best == None <==> NoneQualifies(rows, all, now)
    ensures best.Some? ==>
            exists k: nat :: IsBest(rows, all, now, |all|, k) && best.value == CandidateOf(ip, rows, all[k], now)
  {
    hide Qualifies, CandidateOf;
    best := None;
    ghost var at := 0;
    for i := 0 to |all|
      invariant best == None ==> forall k :: 0 <= k < i ==> !Qualifies(rows, all[k], now)
      invariant best.Some? ==> IsBest(rows, all, now, i, at) && best.value == CandidateOf(ip, rows, all[at], now)
                               && best.value.seconds == all[at].seconds
    {
      var rule := all[i];
      var qualifies := Judge(rows, rule, now);
      if qualifies {
        CandidateSeconds(ip, rows, rule, now);
        var c := CandidateOf(ip, rows, rule, now);
        if best == None || c.seconds > best.value.seconds {
          best := Some(c);
          at := i;
        }
      }
    }
  }

  lemma CandidateSeconds(ip: string, rows: seq<Row>, rule: BanRule, now: nat)
    ensures CandidateOf(ip, rows, rule, now).seconds == rule.seconds && CandidateOf(ip, rows, rule, now).ip == ip
  {
  }

  method Judge(rows: seq<Row>, rule: BanRule, now: nat) returns (b: bool)
    ensures b == Qualifies(rows, rule, now)
  {
    if !rule.active { return false; }
    var hits := 0;
    var clean := false;
    assert rows[0..] == rows;
    for i := 0 to |rows|
      invariant hits + |HitRows(rows[i..], rule, now)| == |HitRows(rows, rule, now)|
      invariant clean == AnyClean(rows[..i], rule.window, now)
    {
      assert rows[i..][1..] == rows[i + 1..];
      if Hits(rows[i], rule, now) { hits := hits + 1; }
      CleanStep(rows, i, rule.window, now);
      if Clean(rows[i], rule.window, now) { clean := true; }
    }
    assert rows[|rows|..] == [] && rows[..|rows|] == rows;
    b := hits >= rule.needed && !clean;
  }

  lemma CleanStep(rows: seq<Row>, i: nat, window: nat, now: nat)
    requires i < |rows|
    ensures AnyClean(rows[..i + 1], window, now) <==> AnyClean(rows[..i], window, now) || Clean(rows[i], window, now)
  {
    hide Clean;
    if AnyClean(rows[..i], window, now) {
      var k :| 0 <= k < |rows[..i]| && Clean(rows[..i][k], window, now);
      assert rows[..i + 1][k] == rows[k];
    }
    if Clean(rows[i], window, now) { assert rows[..i + 1][i] == rows[i]; }
    if AnyClean(rows[..i + 1], window, now) {
      var k :| 0 <= k < |rows[..i + 1]| && Clean(rows[..i + 1][k], window, now);
      if k < i { assert rows[..i][k] == rows[k]; }
    }
  }

  function Ips(cs: seq<Candidate>): (ips: seq<string>)
    ensures |ips| == |cs| && forall i :: 0 <= i < |cs| ==> ips[i] == cs[i].ip
  {
    seq(|cs|, i requires 0 <= i < |cs| => cs[i].ip)
  }

  ghost predicate Seen(rows: seq<Row>, ip: string) {
    ip != "" && RowsOf(rows, ip) != []
  }

  /** The rows grouped by sender, senders in order. */
  method GroupByIp(rows: seq<Row>) returns (ips: seq<string>, byIp: map<string, seq<Row>>)
    ensures Ascending(ips)
    ensures forall ip :: ip in ips <==> Seen(rows, ip)
    ensures forall ip :: ip in byIp <==> Seen(rows, ip)
    ensures forall ip :: ip in byIp ==> byIp[ip] == RowsOf(rows, ip)
  {
    hide Less, Seen, RowsOf, Inserted;
    NothingSeen();
    ips, byIp := [], map[];
    for i := 0 to |rows|
      invariant Ascending(ips)
      invariant forall ip :: ip in ips <==> Seen(rows[..i], ip)
      invariant forall ip :: ip in byIp <==> Seen(rows[..i], ip)
      invariant forall ip :: ip in byIp ==> byIp[ip] == RowsOf(rows[..i], ip)
    {
      var r := rows[i];
      OneMoreRow(rows, i);
      SeenMore(rows, i);
      if r.ip != "" {
        InsertedAscending(ips, r.ip);
        ips := Inserted(ips, r.ip);
        UnseenEmpty(rows[..i], r.ip);
        byIp := byIp[r.ip := (if r.ip in byIp then byIp[r.ip] else []) + [r]];
      }
    }
    assert rows[..|rows|] == rows;
  }

  lemma NothingSeen()
    ensures forall ip :: !Seen([], ip)
  {
  }

  lemma UnseenEmpty(rows: seq<Row>, ip: string)
    requires ip != ""
    ensures !Seen(rows, ip) ==> RowsOf(rows, ip) == []
  {
  }

  lemma SeenMore(rows: seq<Row>, i: nat)
    requires i < |rows|
    ensures forall ip :: Seen(rows[..i + 1], ip) <==> Seen(rows[..i], ip) || (ip != "" && rows[i].ip == ip)
    ensures !Seen(rows[..i], "")
  {
    hide RowsOf;
    OneMoreRow(rows, i);
    forall ip ensures Seen(rows[..i + 1], ip) <==> Seen(rows[..i], ip) || (ip != "" && rows[i].ip == ip) {
      assert RowsOf(rows[..i + 1], ip) == if rows[i].ip == ip then RowsOf(rows[..i], ip) + [rows[i]]
             else RowsOf(rows[..i], ip);
    }
  }

  lemma OneMoreRow(rows: seq<Row>, i: nat)
    requires i < |rows|
    ensures forall ip :: RowsOf(rows[..i + 1], ip) == if rows[i].ip == ip then RowsOf(rows[..i], ip) + [rows[i]]
            else RowsOf(rows[..i], ip)
  {
    forall ip ensures RowsOf(rows[..i + 1], ip) == if rows[i].ip == ip then RowsOf(rows[..i], ip) + [rows[i]]
        else RowsOf(rows[..i], ip) {
      assert rows[..i + 1] == rows[..i] + [rows[i]];
      RowsOfConcat(rows[..i], [rows[i]], ip);
      assert [rows[i]][1..] == [];
    }
  }

  /** What the log calls for under these rules: the sender has a rule that qualifies on
      its own rows, and gets the longest ban of those, the earliest rule's on a tie. */
  ghost predicate Called(c: Candidate, rows: seq<Row>, all: seq<BanRule>, now: nat) {
    && Seen(rows, c.ip)
    && exists k: nat ::
         IsBest(RowsOf(rows, c.ip), all, now, |all|, k) && c == CandidateOf(c.ip, RowsOf(rows, c.ip), all[k], now)
  }

  method Evaluate(rows: seq<Row>, rules: Rules, matches: seq<MatchRule>, now: nat) returns (out: seq<Candidate>)
    ensures Ascending(Ips(out))
    ensures forall i :: 0 <= i < |out| ==> Called(out[i], rows, AllRules(rules, matches), now)
    ensures forall ip :: Seen(rows, ip) && ip !in Ips(out) ==>
            NoneQualifies(RowsOf(rows, ip), AllRules(rules, matches), now)
  {
    hide Qualifies, CandidateOf, Less, IsBest, AllRules, Called, NoneQualifies, RowsOf, Ascending, Seen;
    var all := AllRules(rules, matches);
    var ips, byIp := GroupByIp(rows);
    out := [];
    NobodyAscending();
    for i := 0 to |ips|
      invariant forall j :: 0 <= j < |out| ==> Called(out[j], rows, all, now)
      invariant forall ip :: ip in Ips(out) ==> ip in ips[..i]
      invariant Ascending(Ips(out))
      invariant forall j :: 0 <= j < i && ips[j] !in Ips(out) ==> NoneQualifies(RowsOf(rows, ips[j]), all, now)
    {
      var ip := ips[i];
      assert ip in ips;
      var best := BestFor(ip, byIp[ip], all, now);
      BestCalled(ip, rows, all, now, best);
      if best.Some? {
        AscendingMore(ips, i, Ips(out));
        assert Ips(out + [best.value]) == Ips(out) + [ip];
        out := out + [best.value];
      }
    }
    assert ips[..|ips|] == ips;
  }

  lemma NobodyAscending()
    ensures Ascending(Ips([]))
  {
  }

  lemma AscendingMore(ips: seq<string>, i: nat, chosen: seq<string>)
    requires Ascending(ips) && i < |ips| && Ascending(chosen) && forall ip :: ip in chosen ==> ip in ips[..i]
    ensures Ascending(chosen + [ips[i]])
  {
    hide Less;
    forall j | 0 <= j < |chosen| ensures Less(chosen[j], ips[i]) {
      assert chosen[j] in chosen;
      var k :| 0 <= k < i && ips[k] == chosen[j];
    }
  }

  lemma BestCalled(ip: string, rows: seq<Row>, all: seq<BanRule>, now: nat, best: Option<Candidate>)
    requires Seen(rows, ip)
    requires best == None <==> NoneQualifies(RowsOf(rows, ip), all, now)
    requires best.Some? ==>
             exists k: nat :: IsBest(RowsOf(rows, ip), all, now, |all|, k)
                 && best.value == CandidateOf(ip, RowsOf(rows, ip), all[k], now)
    ensures best.Some? ==> Called(best.value, rows, all, now) && best.value.ip == ip
  {
    hide RowsOf, Qualifies, NoneQualifies;
  }

  /** A sender's outcome is decided: there is one best rule or none. */
  lemma BestUnique(rows: seq<Row>, all: seq<BanRule>, now: nat, k: nat, l: nat)
    requires IsBest(rows, all, now, |all|, k) && IsBest(rows, all, now, |all|, l)
    ensures k == l
  {
    hide Qualifies;
  }

  /** Two evaluations that agree on a sender's rows agree on its candidate. */
  lemma OwnRowsDecide(rows: seq<Row>, rows': seq<Row>, all: seq<BanRule>, now: nat, c: Candidate, c': Candidate)
    requires c.ip == c'.ip && RowsOf(rows, c.ip) == RowsOf(rows', c.ip)
    requires Called(c, rows, all, now)
    ensures Called(c', rows', all, now) <==> c' == c
  {
    hide Qualifies, CandidateOf;
    var k: nat :| IsBest(RowsOf(rows, c.ip), all, now, |all|, k)
        && c == CandidateOf(c.ip, RowsOf(rows, c.ip), all[k], now);
    if Called(c', rows', all, now) {
      var l: nat :| IsBest(RowsOf(rows, c.ip), all, now, |all|, l)
          && c' == CandidateOf(c.ip, RowsOf(rows, c.ip), all[l], now);
      BestUnique(RowsOf(rows, c.ip), all, now, k, l);
    }
  }

  /** A row of another sender, put in anywhere, leaves a sender's rows as they were. */
  lemma OtherRowsIrrelevant(rows: seq<Row>, i: nat, row: Row, ip: string)
    requires i <= |rows| && row.ip != ip
    ensures RowsOf(rows[..i] + [row] + rows[i..], ip) == RowsOf(rows, ip)
  {
    RowsOfConcat(rows[..i] + [row], rows[i..], ip);
    RowsOfConcat(rows[..i], [row], ip);
    RowsOfConcat(rows[..i], rows[i..], ip);
    assert rows[..i] + rows[i..] == rows && [row][1..] == [];
  }

  // ---- the second source -------------------------------------------------------------------

  ghost predicate DistinctIps(cs: seq<Candidate>) {
    forall i, j :: 0 <= i < j < |cs| ==> cs[i].ip != cs[j].ip
  }

  function IndexOfIp(cs: seq<Candidate>, ip: string): (i: nat)
    ensures i <= |cs| && (i < |cs| ==> cs[i].ip == ip) && forall j :: 0 <= j < i ==> cs[j].ip != ip
  {
    IndexWhere(cs, (c: Candidate) => c.ip == ip)
  }

  /** `o` is the longest ban either source asks for its address, the first source's on a tie. */
  ghost predicate Longest(o: Candidate, first: seq<Candidate>, second: seq<Candidate>) {
    && (o in first || o in second)
    && (forall c :: c in first && c.ip == o.ip ==> c.seconds <= o.seconds && (c.seconds == o.seconds ==> o == c))
    && (forall c :: c in second && c.ip == o.ip ==> c.seconds <= o.seconds)
  }

  /** `out` answers for every candidate of the two lists. */
  ghost predicate Covers(out: seq<Candidate>, first: seq<Candidate>, second: seq<Candidate>) {
    && (forall c :: c in first ==> c.ip in Ips(out))
    && (forall c :: c in second ==> c.ip in Ips(out))
  }

  ghost predicate AllLongest(out: seq<Candidate>, first: seq<Candidate>, second: seq<Candidate>) {
    forall i :: 0 <= i < |out| ==> Longest(out[i], first, second)
  }

  /** Candidates refused at SMTP time join those of the log. */
  method Merge(first: seq<Candidate>, second: seq<Candidate>) returns (out: seq<Candidate>)
    requires DistinctIps(first)
    ensures DistinctIps(out) && |out| >= |first|
    ensures forall i :: 0 <= i < |first| ==> out[i].ip == first[i].ip
    ensures AllLongest(out, first, second) && Covers(out, first, second)
  {
    hide AllLongest, Covers;
    out := first;
    MergeNothing(first);
    assert second[..0] == [];
    for n := 0 to |second|
      invariant DistinctIps(out) && |out| >= |first|
      invariant forall i :: 0 <= i < |first| ==> out[i].ip == first[i].ip
      invariant AllLongest(out, first, second[..n]) && Covers(out, first, second[..n])
    {
      var c := second[n];
      var at := IndexOfIp(out, c.ip);
      ghost var before := out;
      if at < |out| {
        if out[at].seconds < c.seconds { out := out[at := c]; }
      } else {
        out := out + [c];
      }
      assert second[..n + 1] == second[..n] + [c];
      MergeCovers(first, second[..n], c, before, out, at);
      MergeLongest(first, second[..n], c, before, out, at);
    }
    assert second[..|second|] == second;
  }

  lemma MergeNothing(first: seq<Candidate>)
    requires DistinctIps(first)
    ensures AllLongest(first, first, []) && Covers(first, first, [])
  {
    forall c | c in first ensures c.ip in Ips(first) {
      var i :| 0 <= i < |first| && first[i] == c;
      assert Ips(first)[i] == c.ip;
    }
  }

  /** `out` is `before` with the candidate `c` merged in. */
  ghost predicate Merged(before: seq<Candidate>, c: Candidate, out: seq<Candidate>, at: nat) {
    && at == IndexOfIp(before, c.ip)
    && out == if at < |before| then (if before[at].seconds < c.seconds then before[at := c] else before)
       else before + [c]
  }

  lemma MergeCovers(first: seq<Candidate>, second: seq<Candidate>, c: Candidate, before: seq<Candidate>,
                    out: seq<Candidate>, at: nat)
    requires Merged(before, c, out, at) && Covers(before, first, second)
    ensures Covers(out, first, second + [c])
  {
    assert forall i :: 0 <= i < |before| ==> Ips(out)[i] == Ips(before)[i];
    assert Ips(out)[at] == c.ip;
    forall ip | ip in Ips(before) ensures ip in Ips(out) {
      var k :| 0 <= k < |before| && Ips(before)[k] == ip;
      assert Ips(out)[k] == ip;
    }
  }

  /** No candidate so far has an address that `out` lacks. */
  lemma NotYet(first: seq<Candidate>, second: seq<Candidate>, before: seq<Candidate>, ip: string)
    requires Covers(before, first, second) && IndexOfIp(before, ip) == |before|
    ensures forall d :: d in first ==> d.ip != ip
    ensures forall d :: d in second ==> d.ip != ip
  {
    assert ip !in Ips(before);
  }

  lemma MergeLongest(first: seq<Candidate>, second: seq<Candidate>, c: Candidate, before: seq<Candidate>,
                     out: seq<Candidate>, at: nat)
    requires DistinctIps(before) && Merged(before, c, out, at)
    requires Covers(before, first, second) && AllLongest(before, first, second)
    ensures AllLongest(out, first, second + [c])
  {
    hide Covers;
    var more := second + [c];
    if at == |before| { NotYet(first, second, before, c.ip); }
    forall i | 0 <= i < |out| ensures Longest(out[i], first, more) {
      if i < |before| { assert Longest(before[i], first, second); }
    }
  }

  // ---- the ban loop ---------------------------------------------------------------------------

  datatype ListState = Allowed | Denied | Unlisted

  /** The firewall's answers. */
  datatype Csf = Csf(valid: string -> bool, available: bool, state: string -> ListState, accepts: Candidate -> bool)

  datatype Why = NotATarget | BannedRecently | NoFirewall | OnAllowList | OnDenyList | OverLimit | RefusedBan

  /** No safeguard speaks for the address. */
  predicate Bannable(c: Candidate, csf: Csf, recent: seq<string>) {
    csf.valid(c.ip) && c.ip !in recent && csf.available && csf.state(c.ip) == Unlisted
  }

  /** The first safeguard that speaks for it. */
  function Safeguard(c: Candidate, csf: Csf, recent: seq<string>): (why: Option<Why>)
    ensures why == None <==> Bannable(c, csf, recent)
    ensures why == Some(NotATarget) <==> !csf.valid(c.ip)
    ensures why == Some(BannedRecently) <==> csf.valid(c.ip) && c.ip in recent
    ensures why == Some(NoFirewall) <==> csf.valid(c.ip) && c.ip !in recent && !csf.available
    ensures why == Some(OnAllowList) <==>
              csf.valid(c.ip) && c.ip !in recent && csf.available && csf.state(c.ip) == Allowed
    ensures why == Some(OnDenyList) <==>
              csf.valid(c.ip) && c.ip !in recent && csf.available && csf.state(c.ip) == Denied
  {
    if !csf.valid(c.ip) then Some(NotATarget)
    else if c.ip in recent then Some(BannedRecently)
    else if !csf.available then Some(NoFirewall)
    else match csf.state(c.ip) case Allowed => Some(OnAllowList) case Denied => Some(OnDenyList) case Unlisted => None
  }

  /** The candidates that would be banned if there were no limit. */
  function Eligible(cs: seq<Candidate>, csf: Csf, recent: seq<string>, dryRun: bool): seq<Candidate> {
    if cs == [] then []
    else
      (if Bannable(cs[0], csf, recent) && (dryRun || csf.accepts(cs[0])) then [cs[0]] else [])
      + Eligible(cs[1..], csf, recent, dryRun)
  }

  function FirstOf(cs: seq<Candidate>, n: nat): seq<Candidate> {
    if |cs| <= n then cs else cs[..n]
  }

  /** Why candidate `i` of the run is not banned, if it is not: a safeguard, the limit reached by
      those before it, or the firewall. */
  function WhyNot(cs: seq<Candidate>, i: nat, csf: Csf, recent: seq<string>, dryRun: bool): (why: Option<Why>)
    requires i < |cs|
    ensures why == Some(OverLimit) <==>
              Bannable(cs[i], csf, recent) && |Eligible(cs[..i], csf, recent, dryRun)| >= 100
    ensures why == Some(RefusedBan) <==>
              Bannable(cs[i], csf, recent) && |Eligible(cs[..i], csf, recent, dryRun)| < 100 && !dryRun
                  && !csf.accepts(cs[i])
    ensures !Bannable(cs[i], csf, recent) ==> why == Safeguard(cs[i], csf, recent)
  {
    if Safeguard(cs[i], csf, recent).Some? then Safeguard(cs[i], csf, recent)
    else if |Eligible(cs[..i], csf, recent, dryRun)| >= MAX_BANS_PER_RUN then Some(OverLimit)
    else if !dryRun && !csf.accepts(cs[i]) then Some(RefusedBan)
    else None
  }

  /** The first `n` candidates that are not banned, in order, each with the reason. */
  function SkippedOf(cs: seq<Candidate>, n: nat, csf: Csf, recent: seq<string>, dryRun: bool): seq<(string, Why)>
    requires n <= |cs|
  {
    if n == 0 then []
    else
      SkippedOf(cs, n - 1, csf, recent, dryRun)
      + match WhyNot(cs, n - 1, csf, recent, dryRun) case Some(why) => [(cs[n - 1].ip, why)] case None => []
  }

  method BanLoop(cs: seq<Candidate>, csf: Csf, recent: seq<string>, dryRun: bool)
    returns (banned: seq<Candidate>, skipped: seq<(string, Why)>)
    ensures var eligible := Eligible(cs, csf, recent, dryRun);
            banned == if |eligible| <= 100 then eligible else eligible[..100]
    ensures skipped == SkippedOf(cs, |cs|, csf, recent, dryRun)
  {
    hide Eligible;
    banned, skipped := [], [];
    NobodyEligible(csf, recent, dryRun);
    assert cs[..0] == [];
    for i := 0 to |cs|
      invariant banned == FirstOf(Eligible(cs[..i], csf, recent, dryRun), MAX_BANS_PER_RUN)
      invariant skipped == SkippedOf(cs, i, csf, recent, dryRun)
    {
      var c := cs[i];
      EligibleStep(cs, i, csf, recent, dryRun);
      if !csf.valid(c.ip) {
        skipped := skipped + [(c.ip, NotATarget)];
        continue;
      }
      if c.ip in recent {
        skipped := skipped + [(c.ip, BannedRecently)];
        continue;
      }
      if !csf.available {
        skipped := skipped + [(c.ip, NoFirewall)];
        continue;
      }
      match csf.state(c.ip) {
        case Allowed =>
          skipped := skipped + [(c.ip, OnAllowList)];
          continue;
        case Denied =>
          skipped := skipped + [(c.ip, OnDenyList)];
          continue;
        case Unlisted =>
      }
      if |banned| >= MAX_BANS_PER_RUN {
        skipped := skipped + [(c.ip, OverLimit)];
        continue;
      }
      if dryRun {
        banned := banned + [c];
        continue;
      }
      if !csf.accepts(c) {
        skipped := skipped + [(c.ip, RefusedBan)];
        continue;
      }
      banned := banned + [c];
    }
    assert cs[..|cs|] == cs;
  }

  lemma NobodyEligible(csf: Csf, recent: seq<string>, dryRun: bool)
    ensures Eligible([], csf, recent, dryRun) == []
  {
  }

  /** One candidate more: among the first eligible ones while there is room. */
  lemma EligibleStep(cs: seq<Candidate>, i: nat, csf: Csf, recent: seq<string>, dryRun: bool)
    requires i < |cs|
    ensures var before, c := Eligible(cs[..i], csf, recent, dryRun), cs[i];
            FirstOf(Eligible(cs[..i + 1], csf, recent, dryRun), MAX_BANS_PER_RUN) ==
            if Bannable(c, csf, recent) && (dryRun || csf.accepts(c)) && |before| < MAX_BANS_PER_RUN then before + [c]
            else FirstOf(before, MAX_BANS_PER_RUN)
  {
    hide Bannable;
    var before, c := Eligible(cs[..i], csf, recent, dryRun), cs[i];
    assert cs[..i + 1] == cs[..i] + [c];
    EligibleConcat(cs[..i], [c], csf, recent, dryRun);
    assert [c][1..] == [];
  }

  lemma {:induction false} EligibleConcat(a: seq<Candidate>, b: seq<Candidate>, csf: Csf, recent: seq<string>,
                                          dryRun: bool)
    ensures Eligible(a + b, csf, recent, dryRun) == Eligible(a, csf, recent, dryRun) + Eligible(b, csf, recent, dryRun)
  {
    hide Bannable;
    if a == [] {
      assert a + b == b;
    } else {
      var own := if Bannable(a[0], csf, recent) && (dryRun || csf.accepts(a[0])) then [a[0]] else [];
      EligibleConcat(a[1..], b, csf, recent, dryRun);
      assert (a + b)[1..] == a[1..] + b && (a + b)[0] == a[0];
      Associative(own, Eligible(a[1..], csf, recent, dryRun), Eligible(b, csf, recent, dryRun));
    }
  }

  /** Nobody is banned whom a safeguard speaks for, and each only on a candidate of the run. */
  lemma {:induction false} EligibleSafe(cs: seq<Candidate>, csf: Csf, recent: seq<string>, dryRun: bool)
    ensures forall c ::
              c in Eligible(cs, csf, recent, dryRun) <==>
                (c in cs && csf.valid(c.ip) && c.ip !in recent && csf.available && csf.state(c.ip) == Unlisted
                 && (dryRun || csf.accepts(c)))
  {
    if cs != [] {
      EligibleSafe(cs[1..], csf, recent, dryRun);
      assert cs == [cs[0]] + cs[1..];
    }
  }
}
