/** Who is banned and why, said of the log's own rows (autoban.rs). */
module BanReasons {
  import opened Options
  import opened StringOrder
  import opened AutoBan

  // ---- counting ------------------------------------------------------------------------------

  /** The rows of a sender that count under a rule, by their place in the log. */
  ghost function HitsAt(rows: seq<Row>, ip: string, rule: BanRule, now: nat): set<nat> {
    set i: nat | i < |rows| && rows[i].ip == ip && Hits(rows[i], rule, now)
  }

  /** `id` is the largest of these rows' ids, or 0 when there are none. */
  ghost predicate IsNewest(rows: seq<Row>, hits: set<nat>, id: nat) {
    && (hits == {} ==> id == 0)
    && (forall i :: i in hits && i < |rows| ==> rows[i].id <= id)
    && (hits != {} ==> exists i :: i in hits && i < |rows| && rows[i].id == id)
  }

  lemma HitsSnoc(rows: seq<Row>, row: Row, rule: BanRule, now: nat)
    ensures HitRows(rows + [row], rule, now) == HitRows(rows, rule, now) + (if Hits(row, rule, now) then [row] else [])
    decreases |rows|
  {
    hide Hits;
    if rows == [] {
      assert rows + [row] == [row] && [row][1..] == [];
    } else {
      assert (rows + [row])[1..] == rows[1..] + [row] && (rows + [row])[0] == rows[0];
      HitsSnoc(rows[1..], row, rule, now);
    }
  }

  lemma NewestSnoc(rows: seq<Row>, row: Row)
    ensures NewestId(rows + [row]) == if row.id > NewestId(rows) then row.id else NewestId(rows)
    decreases |rows|
  {
    if rows == [] {
      assert rows + [row] == [row] && [row][1..] == [];
    } else {
      assert (rows + [row])[1..] == rows[1..] + [row] && (rows + [row])[0] == rows[0];
      NewestSnoc(rows[1..], row);
    }
  }

  /** The rows collected for a sender are those of the log that count. */
  lemma {:induction false} HitsCounted(rows: seq<Row>, ip: string, rule: BanRule, now: nat)
    ensures |HitRows(RowsOf(rows, ip), rule, now)| == |HitsAt(rows, ip, rule, now)|
    ensures IsNewest(rows, HitsAt(rows, ip, rule, now), NewestId(HitRows(RowsOf(rows, ip), rule, now)))
    decreases |rows|
  {
    hide Hits, RowsOf, HitRows, NewestId;
    if rows == [] {
      NoHits(ip, rule, now);
      assert HitsAt(rows, ip, rule, now) == {};
    } else {
      var n := |rows| - 1;
      var front, row := rows[..n], rows[n];
      HitsCounted(front, ip, rule, now);
      assert rows == front + [row];
      OneMoreRow(rows, n);
      assert rows[..n + 1] == rows;
      HitsSnoc(RowsOf(front, ip), row, rule, now);
      NewestSnoc(HitRows(RowsOf(front, ip), rule, now), row);
      HitsGrow(front, row, ip, rule, now);
      var some := row.ip == ip && Hits(row, rule, now);
      var hits, newest := HitsAt(front, ip, rule, now), NewestId(HitRows(RowsOf(front, ip), rule, now));
      if some {
        GrowsNewest(front, row, hits, newest);
      } else {
        KeepsNewest(front, row, hits, newest);
        assert HitRows(RowsOf(front, ip), rule, now) + [] == HitRows(RowsOf(front, ip), rule, now);
      }
    }
  }

  lemma NoHits(ip: string, rule: BanRule, now: nat)
    ensures HitRows(RowsOf([], ip), rule, now) == [] && NewestId([]) == 0
  {
  }

  lemma HitsGrow(front: seq<Row>, row: Row, ip: string, rule: BanRule, now: nat)
    ensures var some := row.ip == ip && Hits(row, rule, now);
            && HitsAt(front + [row], ip, rule, now) == HitsAt(front, ip, rule, now) + (if some then {|front|} else {})
            && |HitsAt(front + [row], ip, rule, now)| == |HitsAt(front, ip, rule, now)| + (if some then 1 else 0)
            && |front| !in HitsAt(front, ip, rule, now)
  {
    hide Hits;
    var rows := front + [row];
    assert forall i :: 0 <= i < |front| ==> rows[i] == front[i];
  }

  lemma KeepsNewest(front: seq<Row>, row: Row, hits: set<nat>, id: nat)
    requires IsNewest(front, hits, id) && forall i :: i in hits ==> i < |front|
    ensures IsNewest(front + [row], hits, id)
  {
    var rows := front + [row];
    assert forall i :: 0 <= i < |front| ==> rows[i] == front[i];
  }

  lemma GrowsNewest(front: seq<Row>, row: Row, hits: set<nat>, id: nat)
    requires IsNewest(front, hits, id) && forall i :: i in hits ==> i < |front|
    ensures IsNewest(front + [row], hits + {|front|}, if row.id > id then row.id else id)
  {
    var rows := front + [row];
    assert forall i :: 0 <= i < |front| ==> rows[i] == front[i];
    assert rows[|front|] == row && |front| in hits + {|front|};
    if row.id <= id && hits == {} { assert row.id == 0; }
    if row.id <= id && hits != {} {
      var i :| i in hits && i < |front| && front[i].id == id;
      assert i in hits + {|front|} && rows[i].id == id;
    }
  }

  /** A clean row of the sender in the window. */
  ghost predicate CleanAt(rows: seq<Row>, ip: string, window: nat, now: nat) {
    exists i :: 0 <= i < |rows| && rows[i].ip == ip && rows[i].ts + window >= now
                && !rows[i].isSpam && !rows[i].isHighSpam && rows[i].matched == []
  }

  lemma {:induction false} CleanFound(rows: seq<Row>, ip: string, window: nat, now: nat)
    ensures AnyClean(RowsOf(rows, ip), window, now) <==> CleanAt(rows, ip, window, now)
  {
    if rows != [] {
      var rest := rows[1..];
      CleanFound(rest, ip, window, now);
      assert forall i :: 0 < i < |rows| ==> rest[i - 1] == rows[i];
      var own, later := if rows[0].ip == ip then [rows[0]] else [], RowsOf(rest, ip);
      CleanConcat(own, later, window, now);
      if CleanAt(rest, ip, window, now) {
        var i :| 0 <= i < |rest| && rest[i].ip == ip && rest[i].ts + window >= now
                 && !rest[i].isSpam && !rest[i].isHighSpam && rest[i].matched == [];
        assert rows[i + 1] == rest[i];
      }
    }
  }

  lemma CleanConcat(a: seq<Row>, b: seq<Row>, window: nat, now: nat)
    ensures AnyClean(a + b, window, now) <==> AnyClean(a, window, now) || AnyClean(b, window, now)
  {
    hide Clean;
    if AnyClean(a, window, now) {
      var i :| 0 <= i < |a| && Clean(a[i], window, now);
      assert (a + b)[i] == a[i];
    }
    if AnyClean(b, window, now) {
      var i :| 0 <= i < |b| && Clean(b[i], window, now);
      assert (a + b)[|a| + i] == b[i];
    }
  }

  // ---- the three kinds of rules --------------------------------------------------------------------

  /** High spam: enabled, enough high-spam rows in the window, no clean row there. */
  lemma HighSpamRule(rows: seq<Row>, ip: string, t: Threshold, now: nat)
    ensures var hits := set i: nat | i < |rows| && rows[i].ip == ip && rows[i].isHighSpam
            && rows[i].ts + t.window >= now;
            var rule, c := ThresholdRule(HighSpam, t),
                CandidateOf(ip, RowsOf(rows, ip), ThresholdRule(HighSpam, t), now);
            && (Qualifies(RowsOf(rows, ip), rule, now)
               <==> t.enabled && |hits| >= t.count && !CleanAt(rows, ip, t.window, now))
            && c == Candidate(ip, HighSpam, None, |hits|, t.ban, c.sampleId) && IsNewest(rows, hits, c.sampleId)
  {
    hide RowsOf, HitRows, NewestId, IsNewest, CleanAt, AnyClean;
    var rule := ThresholdRule(HighSpam, t);
    HitsCounted(rows, ip, rule, now);
    CleanFound(rows, ip, t.window, now);
    var hits := set i: nat | i < |rows| && rows[i].ip == ip && rows[i].isHighSpam && rows[i].ts + t.window >= now;
    assert HitsAt(rows, ip, rule, now) == hits;
  }

  /** Spam: the same with rows that are spam but no high spam. */
  lemma SpamRule(rows: seq<Row>, ip: string, t: Threshold, now: nat)
    ensures var hits := set i: nat | i < |rows| && rows[i].ip == ip && rows[i].isSpam && !rows[i].isHighSpam
                                     && rows[i].ts + t.window >= now;
            var rule, c := ThresholdRule(Spam, t), CandidateOf(ip, RowsOf(rows, ip), ThresholdRule(Spam, t), now);
            && (Qualifies(RowsOf(rows, ip), rule, now)
               <==> t.enabled && |hits| >= t.count && !CleanAt(rows, ip, t.window, now))
            && c == Candidate(ip, Spam, None, |hits|, t.ban, c.sampleId) && IsNewest(rows, hits, c.sampleId)
  {
    hide RowsOf, HitRows, NewestId, IsNewest, CleanAt, AnyClean;
    var rule := ThresholdRule(Spam, t);
    HitsCounted(rows, ip, rule, now);
    CleanFound(rows, ip, t.window, now);
    var hits := set i: nat | i < |rows| && rows[i].ip == ip && rows[i].isSpam && !rows[i].isHighSpam
        && rows[i].ts + t.window >= now;
    assert HitsAt(rows, ip, rule, now) == hits;
  }

  /** A match rule: enabled with a ban, one row of the last hour that names it, no clean row there. */
  lemma MatchedRule(rows: seq<Row>, ip: string, m: MatchRule, now: nat)
    ensures var hits := set i: nat | i < |rows| && rows[i].ip == ip && m.id in rows[i].matched
            && rows[i].ts + 3600 >= now;
            var rule, c := MatchBan(m), CandidateOf(ip, RowsOf(rows, ip), MatchBan(m), now);
            && (Qualifies(RowsOf(rows, ip), rule, now) <==>
                  m.enabled && m.ban > 0 && hits != {} && !CleanAt(rows, ip, 3600, now))
            && c == Candidate(ip, Matched, Some(m.id), |hits|, m.ban, c.sampleId) && IsNewest(rows, hits, c.sampleId)
  {
    hide RowsOf, HitRows, NewestId, IsNewest, CleanAt, AnyClean;
    var rule := MatchBan(m);
    HitsCounted(rows, ip, rule, now);
    CleanFound(rows, ip, 3600, now);
    var hits := set i: nat | i < |rows| && rows[i].ip == ip && m.id in rows[i].matched && rows[i].ts + 3600 >= now;
    assert HitsAt(rows, ip, rule, now) == hits;
    if hits != {} {
      var i :| i in hits;
      assert |hits| >= 1 by { assert hits == {i} + (hits - {i}); }
    }
  }

  /** What a candidate of the log says for itself: its rule was on and reached its count on the
      sender's own rows, and the sender has no clean row in the rule's window. */
  lemma CandidateReason(c: Candidate, rows: seq<Row>, rules: Rules, matches: seq<MatchRule>, now: nat)
    requires Called(c, rows, AllRules(rules, matches), now)
    ensures c.reason != Smtp
    ensures c.reason == HighSpam ==>
              var hits := set i: nat | i < |rows| && rows[i].ip == c.ip && rows[i].isHighSpam
                                       && rows[i].ts + rules.high.window >= now;
              && rules.high.enabled && c.count == |hits| >= rules.high.count && c.seconds == rules.high.ban
              && !CleanAt(rows, c.ip, rules.high.window, now) && IsNewest(rows, hits, c.sampleId)
    ensures c.reason == Spam ==>
              var hits := set i: nat | i < |rows| && rows[i].ip == c.ip && rows[i].isSpam && !rows[i].isHighSpam
                                       && rows[i].ts + rules.spam.window >= now;
              && rules.spam.enabled && c.count == |hits| >= rules.spam.count && c.seconds == rules.spam.ban
              && !CleanAt(rows, c.ip, rules.spam.window, now) && IsNewest(rows, hits, c.sampleId)
    ensures c.reason == Matched ==>
              exists n :: 0 <= n < |matches| && c.ruleId == Some(matches[n].id) && matches[n].enabled
                          && c.seconds == matches[n].ban > 0 && c.count > 0 && !CleanAt(rows, c.ip, 3600, now)
  {
    hide Qualifies, CandidateOf, RowsOf, CleanAt, IsNewest, ThresholdRule, MatchBan;
    var all, own := AllRules(rules, matches), RowsOf(rows, c.ip);
    var k: nat :| IsBest(own, all, now, |all|, k) && c == CandidateOf(c.ip, own, all[k], now);
    assert Qualifies(own, all[k], now);
    HighSpamRule(rows, c.ip, rules.high, now);
    SpamRule(rows, c.ip, rules.spam, now);
    if k >= 2 {
      MatchedRule(rows, c.ip, matches[k - 2], now);
      MatchedCount(rows, c.ip, matches[k - 2], now);
      assert all[k] == MatchBan(matches[k - 2]);
    }
  }

  lemma MatchedCount(rows: seq<Row>, ip: string, m: MatchRule, now: nat)
    requires Qualifies(RowsOf(rows, ip), MatchBan(m), now)
    ensures CandidateOf(ip, RowsOf(rows, ip), MatchBan(m), now).count > 0
  {
    hide RowsOf, HitRows, AnyClean;
  }
}
