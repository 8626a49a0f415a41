/** The words of a suggested SPF record (acctdns.rs): which mechanism is added, and that
    nothing published is lost and nothing else comes in. */
module SpfWords {
  import opened Options
  import opened Text
  import opened Spf
  import opened SpfMeaning

  /** The mechanism a suggestion is to add: what cPanel expects, else the server's own address. */
  ghost predicate ToAdd(m: string, expected: string, outIp: OutIp) {
    if Trim(expected) != "" then m == Trim(expected)
    else
      || (outIp.V4? && m == "ip4:" + outIp.text)
      || (outIp.V6? && m == "ip6:" + outIp.text)
      || (outIp.NoIp? && m == "")
  }

  ghost predicate Published(current: seq<string>) {
    exists i :: 0 <= i < |current| && Trim(current[i]) != ""
  }

  // ---- nothing published ------------------------------------------------------------------------

  /** With nothing published, the words of the record. */
  lemma FirstRecord(current: seq<string>, expected: string, outIp: OutIp, m: string, record: string)
    requires record == Suggested(current, SpfMechanism(expected, outIp))
    requires !Published(current) && ToAdd(m, expected, outIp) && (m == "" || IsWord(m))
    ensures Words(record) == ["v=spf1", "+mx", "+a"] + (if m == "" then [] else [m]) + ["~all"]
  {
    hide Words, IsWord, Trim;
    var words := ["v=spf1", "+mx", "+a"] + (if m == "" then [] else [m]) + ["~all"];
    FirstWords();
    if m == "" { FirstJoined(); } else { FirstJoinedWith(m); }
    WordsOfJoin(words);
  }

  lemma FirstWords()
    ensures IsWord("v=spf1") && IsWord("+mx") && IsWord("+a") && IsWord("~all")
  {
  }

  lemma FirstJoined()
    ensures JoinWords(["v=spf1", "+mx", "+a"] + [] + ["~all"]) == "v=spf1 +mx +a ~all"
  {
    assert ["v=spf1", "+mx", "+a"] + [] + ["~all"] == ["v=spf1", "+mx", "+a", "~all"];
    JoinedWord("+a", ["~all"]);
    JoinedWord("+mx", ["+a", "~all"]);
    JoinedWord("v=spf1", ["+mx", "+a", "~all"]);
  }

  lemma FirstJoinedWith(m: string)
    ensures JoinWords(["v=spf1", "+mx", "+a"] + [m] + ["~all"]) == "v=spf1 +mx +a " + m + " ~all"
  {
    assert ["v=spf1", "+mx", "+a"] + [m] + ["~all"] == ["v=spf1", "+mx", "+a", m, "~all"];
    JoinedWord(m, ["~all"]);
    JoinedWord("+a", [m, "~all"]);
    JoinedWord("+mx", ["+a", m, "~all"]);
    JoinedWord("v=spf1", ["+mx", "+a", m, "~all"]);
    assert "v=spf1" + " " + ("+mx" + " " + ("+a" + " " + (m + " " + "~all"))) == "v=spf1 +mx +a " + m + " ~all";
  }

  lemma JoinedWord(w: string, rest: seq<string>)
    requires rest != []
    ensures JoinWords([w] + rest) == w + " " + JoinWords(rest)
    ensures |rest| == 1 ==> JoinWords(rest) == rest[0]
  {
    assert ([w] + rest)[1..] == rest;
  }

  // ---- words come from somewhere, and none is lost -------------------------------------------------

  lemma PushHas(list: seq<string>, tok: string)
    ensures Has(Push(list, tok), tok)
    ensures forall t :: Has(list, t) ==> Has(Push(list, tok), t)
    ensures forall t :: t in Push(list, tok) <==> t in list || (t == tok && !Has(list, tok))
  {
    hide SameWord;
    var more := Push(list, tok);
    SameSelf(tok);
    if !Has(list, tok) { assert more[|list|] == tok; }
    forall t | Has(list, t) ensures Has(more, t) {
      var i :| 0 <= i < |list| && SameWord(list[i], t);
      assert more[i] == list[i];
    }
  }

  lemma SameSelf(tok: string)
    ensures SameWord(tok, tok)
  {
  }

  lemma {:induction false} TakeAllHas(c: Collected, toks: seq<string>)
    ensures var d := TakeAll(c, toks);
            && (forall t :: Has(c.terms, t) ==> Has(d.terms, t))
            && (forall t :: Has(c.modifiers, t) ==> Has(d.modifiers, t))
            && (c.all.Some? ==> d.all == c.all)
            && (forall t :: t in toks && !IsAllTerm(t) ==>
               if HasEquals(t) then Has(d.modifiers, t) else Has(d.terms, t))
            && (d.all.Some? <==> c.all.Some? || exists t :: t in toks && IsAllTerm(t))
    decreases |toks|
  {
    hide HasEquals, IsAllTerm, Push, Has;
    if toks != [] {
      var t := toks[0];
      PushHas(c.modifiers, t);
      PushHas(c.terms, t);
      TakeAllHas(Take(c, t), toks[1..]);
      assert toks == [t] + toks[1..];
      assert forall u :: u in toks <==> u == t || u in toks[1..];
    }
  }

  /** What a collection holds came from the tokens. */
  lemma {:induction false} TakeAllFrom(c: Collected, toks: seq<string>)
    ensures var d := TakeAll(c, toks);
            && (forall t :: t in d.terms ==> t in c.terms || t in toks)
            && (forall t :: t in d.modifiers ==> t in c.modifiers || t in toks)
            && (d.all.Some? ==> d.all == c.all || exists t :: t in toks && IsAllTerm(t) && d.all.value == LowerAll(t))
    decreases |toks|
  {
    hide HasEquals, IsAllTerm, Push, Has;
    if toks != [] {
      var t := toks[0];
      PushHas(c.modifiers, t);
      PushHas(c.terms, t);
      TakeAllFrom(Take(c, t), toks[1..]);
      assert toks == [t] + toks[1..];
      assert forall u :: u in toks <==> u == t || u in toks[1..];
    }
  }

  /** The tokens of all records after their versions, one record after the other. */
  function Bodies(records: seq<string>): seq<string> {
    if records == [] then [] else Body(records[0]) + Bodies(records[1..])
  }

  /** Every word of a record but a version at its start is among them. */
  lemma {:induction false} WordKept(records: seq<string>, i: nat, j: nat)
    requires i < |records| && j < |Words(records[i])|
    requires j > 0 || !SameWord(Words(records[i])[j], "v=spf1")
    ensures Words(records[i])[j] in Bodies(records)
    decreases i
  {
    hide Words, SameWord;
    if i > 0 {
      assert records[1..][i - 1] == records[i];
      WordKept(records[1..], i - 1, j);
    } else {
      var toks, body := Words(records[0]), Body(records[0]);
      assert body[if |body| < |toks| then j - 1 else j] == toks[j];
    }
  }

  /** Several records are collected as one whose tokens are theirs, in order. */
  lemma {:induction false} RecordsAsOne(c: Collected, records: seq<string>)
    ensures TakeRecords(c, records) == TakeAll(c, Bodies(records))
    decreases |records|
  {
    hide Body, Take;
    if records != [] {
      TakeAllConcat(c, Body(records[0]), Bodies(records[1..]));
      RecordsAsOne(TakeAll(c, Body(records[0])), records[1..]);
    }
  }

  lemma {:induction false} TakeAllConcat(c: Collected, a: seq<string>, b: seq<string>)
    ensures TakeAll(c, a + b) == TakeAll(TakeAll(c, a), b)
    decreases |a|
  {
    hide Take;
    if a == [] {
      assert a + b == b;
    } else {
      assert (a + b)[1..] == a[1..] + b;
      TakeAllConcat(Take(c, a[0]), a[1..], b);
    }
  }

  /** Of published records every word that is no `all` is in the suggestion, up to case, and so is the
      mechanism to add; a word of the suggestion is the version, one of theirs, their first `all` in
      lower case, that mechanism, or `~all`. */
  lemma SuggestedFrom(current: seq<string>, expected: string, outIp: OutIp, m: string, record: string)
    requires record == Suggested(current, SpfMechanism(expected, outIp))
    requires Published(current) && ToAdd(m, expected, outIp) && (m == "" || IsWord(m))
    ensures var words, toks := Words(record), Bodies(current);
            && words != [] && words[0] == "v=spf1"
            && (m != "" ==> Has(words, m))
            && (forall t :: t in toks && !IsAllTerm(t) ==> Has(words, t))
            && (forall w :: w in words[1..] ==>
                  || w in toks || (m != "" && w == m) || w == "~all"
                  || exists t :: t in toks && IsAllTerm(t) && w == LowerAll(t))
  {
    hide Words, IsWord, Trim, HasEquals, IsAllTerm, TakeAll, Has, SameWord;
    var toks := Bodies(current);
    var c := TakeAll(EMPTY, toks);
    SuggestedWords(current, m);
    RecordsAsOne(EMPTY, current);
    TakeAllHas(EMPTY, toks);
    TakeAllFrom(EMPTY, toks);
    var words := ["v=spf1"] + Assemble(c, m);
    assert Words(record) == words && words[1..] == Assemble(c, m);
    AssembledWords(c, m, words);
  }

  lemma AssembledWords(c: Collected, m: string, words: seq<string>)
    requires words == ["v=spf1"] + Assemble(c, m)
    ensures m != "" ==> Has(words, m)
    ensures forall t :: Has(c.terms, t) || Has(c.modifiers, t) ==> Has(words, t)
    ensures forall w :: w in Assemble(c, m) ==>
              w in c.terms || w in c.modifiers || (m != "" && w == m) || w == "~all" || c.all == Some(w)
  {
    hide SameWord, Push, Has, Redirects;
    var terms := WithMechanism(c.terms, m);
    PushHas(c.terms, m);
    var rest := words[1 + |terms| + |c.modifiers|..];
    assert words == (["v=spf1"] + terms) + (c.modifiers + rest);
    assert words == (["v=spf1"] + terms + c.modifiers) + rest;
    forall t | Has(terms, t) ensures Has(words, t) { HasConcat(["v=spf1"], terms, c.modifiers + rest, t); }
    forall t | Has(c.modifiers, t) ensures Has(words, t) { HasConcat(["v=spf1"] + terms, c.modifiers, rest, t); }
  }

  lemma HasConcat(a: seq<string>, b: seq<string>, c: seq<string>, t: string)
    requires Has(b, t)
    ensures Has(a + b + c, t) && Has(a + (b + c), t)
  {
    hide SameWord;
    var i :| 0 <= i < |b| && SameWord(b[i], t);
    assert (a + b + c)[|a| + i] == b[i] && (a + (b + c))[|a| + i] == b[i];
  }

  // ---- what a suggestion does for senders, by the mechanism's own text ------------------------------

  /** One published record, the mechanism to add named by its text. */
  lemma SuggestionFor(published: string, expected: string, outIp: OutIp, m: string, record: string, who: Sender)
    requires record == Suggested([published], SpfMechanism(expected, outIp)) && ToAdd(m, expected, outIp)
    requires Words(published) != [] && IsVersion(Words(published)[0]) && Regular(Body(published))
    requires m == "" || Addable(m)
    ensures var before, after := Words(published)[1..], Words(record);
            && after != [] && after[0] == "v=spf1"
            && Meaning(after[1..], who) ==
               if FirstMatch(before, who).Some? then Meaning(before, who)
               else if m != "" && MatchedBy(m, who) then QualifierVerdict(m)
               else if FirstAll(before) == None && FirstRedirect(before) == None then SoftFail
               else Meaning(before, who)
  {
    hide Words, Regular, Meaning, FirstMatch, FirstAll, FirstRedirect, Suggested, Addable, MatchedBy, Trim, IsVersion;
    SuggestedRecordMeaning(published, m, who);
  }

  // ---- tokens -----------------------------------------------------------------------------------------

  /** An `all` term is the word, in any case, with at most one qualifier. */
  lemma AllTerms(tok: string)
    ensures IsAllTerm(tok) <==>
              LowerAll(tok) == "all" || LowerAll(tok) == "+all" || LowerAll(tok) == "-all"
              || LowerAll(tok) == "~all" || LowerAll(tok) == "?all"
  {
    var low := LowerAll(tok);
    LowerMechanism(tok);
    assert LowerAll("all") == "all";
    if HasQualifier(tok) {
      assert low[0] == tok[0] && low == [tok[0]] + low[1..] && Mechanism(low) == low[1..];
    } else if tok != "" {
      assert low[0] == Lower(tok[0]);
    }
  }

  lemma EqualsMeans(tok: string)
    ensures HasEquals(tok) <==> '=' in tok
  {
    if '=' in tok {
      var i :| 0 <= i < |tok| && tok[i] == '=';
    }
  }

  /** Words are the same when they differ in the case of letters only. */
  lemma SameWordMeans(a: string, b: string)
    ensures SameWord(a, b) <==> |a| == |b| && forall i :: 0 <= i < |a| ==> Lower(a[i]) == Lower(b[i])
  {
    assert |LowerAll(a)| == |a| && |LowerAll(b)| == |b|;
    if SameWord(a, b) { forall i | 0 <= i < |a| ensures Lower(a[i])
        == Lower(b[i]) { assert LowerAll(a)[i] == LowerAll(b)[i]; } }
  }

  /** No word comes twice, up to case. */
  ghost predicate NoRepeats(toks: seq<string>) {
    forall i, j :: 0 <= i < j < |toks| ==> !SameWord(toks[i], toks[j])
  }

  lemma PushNoRepeats(list: seq<string>, tok: string)
    requires NoRepeats(list)
    ensures NoRepeats(Push(list, tok))
  {
    hide SameWord;
  }

  lemma {:induction false} TakeAllNoRepeats(c: Collected, toks: seq<string>)
    requires NoRepeats(c.terms) && NoRepeats(c.modifiers)
    ensures NoRepeats(TakeAll(c, toks).terms) && NoRepeats(TakeAll(c, toks).modifiers)
    decreases |toks|
  {
    hide NoRepeats, Push, HasEquals, IsAllTerm;
    if toks != [] {
      PushNoRepeats(c.terms, toks[0]);
      PushNoRepeats(c.modifiers, toks[0]);
      TakeAllNoRepeats(Take(c, toks[0]), toks[1..]);
    }
  }

  /** However many records are merged, no word of the suggestion after its version comes twice. */
  lemma SuggestionNoRepeats(records: seq<string>, m: string)
    requires m == "" || Addable(m)
    ensures NoRepeats(Assemble(TakeRecords(EMPTY, records), m))
  {
    hide NoRepeats, HasEquals, IsAllTerm, SameWord, TakeAll, WithMechanism, TakeRecords;
    var c := TakeRecords(EMPTY, records);
    RecordsAsOne(EMPTY, records);
    NothingRepeats();
    TakeAllNoRepeats(EMPTY, Bodies(records));
    TakeRecordsSorted(EMPTY, records);
    var terms := WithMechanism(c.terms, m);
    WithMechanismFirst(c.terms, m, x => false);
    MechanismNoRepeats(c.terms, m);
    LastFirst(c);
    PartsNoRepeats(terms, c.modifiers, Last(c));
  }

  lemma MechanismNoRepeats(terms: seq<string>, m: string)
    requires NoRepeats(terms)
    ensures NoRepeats(WithMechanism(terms, m))
  {
    hide SameWord;
  }

  lemma NothingRepeats()
    ensures NoRepeats(EMPTY.terms) && NoRepeats(EMPTY.modifiers) && Sorted(EMPTY)
  {
  }

  lemma PartsNoRepeats(terms: seq<string>, modifiers: seq<string>, last: seq<string>)
    requires Parts(terms, modifiers, last) && NoRepeats(terms) && NoRepeats(modifiers) && |last| <= 1
    ensures NoRepeats(terms + modifiers + last)
  {
    hide HasEquals, IsAllTerm, SameWord;
    var toks := terms + modifiers + last;
    forall i, j | 0 <= i < j < |toks| ensures !SameWord(toks[i], toks[j]) {
      if SameWord(toks[i], toks[j]) { SameKind(toks[i], toks[j]); }
    }
  }

  lemma SameKind(a: string, b: string)
    requires SameWord(a, b)
    ensures HasEquals(a) == HasEquals(b) && IsAllTerm(a) == IsAllTerm(b)
  {
    SameIndex(a, b, '=');
    LowerAllTerm(a);
    LowerAllTerm(b);
    assert |LowerAll(a)| == |a| && |LowerAll(b)| == |b|;
  }
}
