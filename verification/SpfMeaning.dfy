/** What a suggested SPF record keeps of the one it replaces: every sender's result,
    but for those the added mechanism is for. */
module SpfMeaning {
  import opened Options
  import opened Text
  import opened Spf

  function OrElse<T>(a: Option<T>, b: Option<T>): Option<T> {
    if a.Some? then a else b
  }

  // ---- the parts of a list of tokens ------------------------------------------------------

  lemma {:induction false} FirstMatchConcat(a: seq<string>, b: seq<string>, who: Sender)
    ensures FirstMatch(a + b, who) == OrElse(FirstMatch(a, who), FirstMatch(b, who))
  {
    hide IsModifier, IsAllTerm, MatchedBy;
    if a == [] { assert a + b == b; } else { assert (a + b)[1..] == a[1..] + b; FirstMatchConcat(a[1..], b, who); }
  }

  lemma {:induction false} FirstAllConcat(a: seq<string>, b: seq<string>)
    ensures FirstAll(a + b) == OrElse(FirstAll(a), FirstAll(b))
  {
    hide IsAllTerm;
    if a == [] { assert a + b == b; } else { assert (a + b)[1..] == a[1..] + b; FirstAllConcat(a[1..], b); }
  }

  lemma {:induction false} FirstRedirectConcat(a: seq<string>, b: seq<string>)
    ensures FirstRedirect(a + b) == OrElse(FirstRedirect(a), FirstRedirect(b))
  {
    hide IsRedirect;
    if a == [] { assert a + b == b; } else { assert (a + b)[1..] == a[1..] + b; FirstRedirectConcat(a[1..], b); }
  }

  /** `all` after every other mechanism. */
  ghost predicate AllLast(toks: seq<string>) {
    forall i, j :: 0 <= i < j < |toks| && IsAllTerm(toks[i]) ==> IsAllTerm(toks[j]) || IsModifier(toks[j])
  }

  /** Then `all` is only asked when none of them matches. */
  lemma {:induction false} AllLastFirstTerm(toks: seq<string>, who: Sender)
    requires AllLast(toks)
    ensures FirstTerm(toks, who) == OrElse(FirstMatch(toks, who), FirstAll(toks))
  {
    hide MatchedBy, HasQualifier;
    if toks != [] {
      if IsAllTerm(toks[0]) {
        AllHasNoEquals(toks[0]);
        NoMatchAfterAll(toks, 1, who);
      } else {
        AllLastTail(toks);
        AllLastFirstTerm(toks[1..], who);
      }
    }
  }

  lemma AllLastTail(toks: seq<string>)
    requires toks != [] && AllLast(toks)
    ensures AllLast(toks[1..])
  {
    hide IsModifier, IsAllTerm;
    var t := toks[1..];
    forall i, j | 0 <= i < j < |t| && IsAllTerm(t[i]) ensures IsAllTerm(t[j]) || IsModifier(t[j]) {
      assert t[i] == toks[i + 1] && t[j] == toks[j + 1];
    }
  }

  lemma {:induction false} NoMatchAfterAll(toks: seq<string>, i: nat, who: Sender)
    requires AllLast(toks) && toks != [] && IsAllTerm(toks[0]) && 1 <= i <= |toks|
    ensures FirstMatch(toks[i..], who) == None
    decreases |toks| - i
  {
    hide IsModifier, IsAllTerm, HasEquals, MatchedBy;
    if i < |toks| {
      assert toks[i..][1..] == toks[i + 1..];
      NoMatchAfterAll(toks, i + 1, who);
    }
  }

  lemma AllHasNoEquals(tok: string)
    requires IsAllTerm(tok)
    ensures !HasEquals(tok) && !IsModifier(tok) && !IsRedirect(tok)
  {
    var m := Mechanism(tok);
    assert LowerAll("all") == "all";
    forall i | 0 <= i < |tok| ensures tok[i] != '=' {
      var k := if HasQualifier(tok) then i - 1 else i;
      if k >= 0 { assert Lower(m[k]) == "all"[k]; }
    }
  }

  /** The result of the first of these mechanisms that matches, else `otherwise`. */
  function Decided(toks: seq<string>, who: Sender, otherwise: Verdict): Verdict {
    match FirstMatch(toks, who) case Some(t) => QualifierVerdict(t) case None => otherwise
  }

  /** The meaning of such a record: its first match, else its default. */
  lemma AllLastMeaning(toks: seq<string>, who: Sender)
    requires AllLast(toks)
    ensures Meaning(toks, who) == Decided(toks, who, Default(toks))
  {
    hide FirstMatch, FirstTerm, FirstAll, FirstRedirect, QualifierVerdict, AllLast;
    AllLastFirstTerm(toks, who);
  }

  // ---- collecting keeps what matters ---------------------------------------------------------

  lemma PushFirst(list: seq<string>, tok: string, who: Sender)
    requires !IsAllTerm(tok)
    requires forall i :: 0 <= i < |list| ==> !IsAllTerm(list[i])
    ensures FirstMatch(Push(list, tok), who) == OrElse(FirstMatch(list, who), FirstMatch([tok], who))
  {
    hide IsModifier, IsAllTerm, SameWord;
    if Has(list, tok) {
      var i :| 0 <= i < |list| && SameWord(list[i], tok);
      SameMatch(list[i], tok, who);
      SameModifier(list[i], tok);
      assert [tok][1..] == [];
      if !IsModifier(tok) && MatchedBy(tok, who) { SomeMatch(list, i, who); }
    } else {
      FirstMatchConcat(list, [tok], who);
    }
  }

  lemma NotModifier(tok: string)
    requires !HasEquals(tok)
    ensures !IsModifier(tok)
  {
  }

  lemma SameModifier(a: string, b: string)
    requires SameWord(a, b)
    ensures IsModifier(a) == IsModifier(b)
  {
    SameIndex(a, b, '=');
    SameIndex(a, b, ':');
    SameIndex(a, b, '/');
  }

  lemma SameIndex(a: string, b: string, c: char)
    requires SameWord(a, b) && c in "=:/"
    ensures |a| == |b| && IndexOf(a, c) == IndexOf(b, c)
  {
    assert |LowerAll(a)| == |LowerAll(b)|;
    forall i | 0 <= i < |a| ensures a[i] == c <==> b[i] == c {
      assert Lower(a[i]) == LowerAll(a)[i] == LowerAll(b)[i] == Lower(b[i]);
    }
  }

  lemma SameMatch(a: string, b: string, who: Sender)
    requires SameWord(a, b)
    ensures MatchedBy(a, who) == MatchedBy(b, who)
  {
    LowerMechanism(a);
    LowerMechanism(b);
  }

  lemma LowerMechanism(a: string)
    ensures LowerAll(Mechanism(a)) == Mechanism(LowerAll(a)) && HasQualifier(a) == HasQualifier(LowerAll(a))
    ensures HasQualifier(a) ==> LowerAll(a)[0] == a[0]
  {
    if a != "" { assert LowerAll(a)[0] == Lower(a[0]); }
    if HasQualifier(a) { assert LowerAll(a)[1..] == LowerAll(a[1..]); }
  }

  lemma {:induction false} SomeMatch(list: seq<string>, i: nat, who: Sender)
    requires i < |list| && !IsModifier(list[i]) && !IsAllTerm(list[i]) && MatchedBy(list[i], who)
    ensures FirstMatch(list, who).Some?
  {
    hide IsModifier, IsAllTerm, MatchedBy;
    if i > 0 { SomeMatch(list[1..], i - 1, who); }
  }

  lemma PushRedirect(list: seq<string>, tok: string)
    ensures FirstRedirect(Push(list, tok)) == OrElse(FirstRedirect(list), FirstRedirect([tok]))
  {
    hide IsRedirect;
    if Has(list, tok) {
      var i :| 0 <= i < |list| && SameWord(list[i], tok);
      SameRedirect(list[i], tok);
      assert [tok][1..] == [];
      if IsRedirect(tok) { SomeRedirect(list, i); }
    } else {
      FirstRedirectConcat(list, [tok]);
    }
  }

  lemma SameRedirect(a: string, b: string)
    requires SameWord(a, b)
    ensures IsRedirect(a) == IsRedirect(b)
  {
  }

  lemma {:induction false} SomeRedirect(list: seq<string>, i: nat)
    requires i < |list| && IsRedirect(list[i])
    ensures FirstRedirect(list).Some?
  {
    hide IsRedirect;
    if i > 0 { SomeRedirect(list[1..], i - 1); }
  }

  /** The lists hold what their names say. */
  ghost predicate Sorted(c: Collected) {
    && (forall i :: 0 <= i < |c.terms| ==> !HasEquals(c.terms[i]) && !IsAllTerm(c.terms[i]))
    && (forall i :: 0 <= i < |c.modifiers| ==> HasEquals(c.modifiers[i]) && !IsAllTerm(c.modifiers[i]))
    && (c.all.Some? ==> IsAllTerm(c.all.value))
  }

  lemma TakeSorted(c: Collected, tok: string)
    requires Sorted(c)
    ensures Sorted(Take(c, tok))
  {
    hide HasEquals, IsAllTerm, SameWord;
    if IsAllTerm(tok) { LowerAllTerm(tok); }
  }

  lemma LowerIdempotent(a: string)
    ensures LowerAll(LowerAll(a)) == LowerAll(a)
  {
  }

  lemma LowerAllTerm(tok: string)
    ensures IsAllTerm(LowerAll(tok)) == IsAllTerm(tok) && QualifierVerdict(LowerAll(tok)) == QualifierVerdict(tok)
  {
    LowerMechanism(tok);
    LowerIdempotent(Mechanism(tok));
  }

  /** The default a collection stands for. */
  function CollectedAll(c: Collected, toks: seq<string>): Option<string> {
    if c.all.Some? then c.all else match FirstAll(toks) case Some(a) => Some(LowerAll(a)) case None => None
  }

  ghost predicate EqualsInModifiers(toks: seq<string>) {
    forall i :: 0 <= i < |toks| && HasEquals(toks[i]) ==> IsModifier(toks[i])
  }

  lemma RedirectHasEquals(tok: string)
    requires IsRedirect(tok)
    ensures HasEquals(tok) && !IsAllTerm(tok)
  {
    assert LowerAll(tok)[8] == "redirect="[8] == '=';
    assert Lower(tok[8]) == '=';
    assert tok[8] == '=';
    if IsAllTerm(tok) { AllHasNoEquals(tok); }
  }

  /** The mechanisms without `=` but for `all`, and the tokens with it. */
  function Plain(toks: seq<string>): seq<string> {
    if toks == [] then []
    else (if HasEquals(toks[0]) || IsAllTerm(toks[0]) then [] else [toks[0]]) + Plain(toks[1..])
  }

  function WithEquals(toks: seq<string>): seq<string> {
    if toks == [] then []
    else (if HasEquals(toks[0]) && !IsAllTerm(toks[0]) then [toks[0]] else []) + WithEquals(toks[1..])
  }

  /** One token more, taken in, adds what it would add at the end of a list. */
  lemma TakeFirst(c: Collected, tok: string, who: Sender)
    requires Sorted(c)
    ensures FirstMatch(Take(c, tok).terms, who) == OrElse(FirstMatch(c.terms, who), FirstMatch(Plain([tok]), who))
    ensures FirstMatch(Take(c, tok).modifiers, who)
            == OrElse(FirstMatch(c.modifiers, who), FirstMatch(WithEquals([tok]), who))
    ensures FirstRedirect(Take(c, tok).modifiers) == OrElse(FirstRedirect(c.modifiers), FirstRedirect([tok]))
    ensures Take(c, tok).all == CollectedAll(c, [tok])
  {
    hide HasEquals, IsModifier, IsAllTerm, IsRedirect, MatchedBy, Push;
    assert [tok][1..] == [];
    assert FirstAll([tok]) == if IsAllTerm(tok) then Some(tok) else None;
    if IsRedirect(tok) { RedirectHasEquals(tok); }
    if IsAllTerm(tok) {
    } else if HasEquals(tok) {
      PushRedirect(c.modifiers, tok);
      PushFirst(c.modifiers, tok, who);
      assert WithEquals([tok]) == [tok];
    } else {
      PushFirst(c.terms, tok, who);
      assert Plain([tok]) == [tok];
    }
  }

  /** Collecting a record's tokens keeps the first match of either kind, its first redirect
      and its first `all`. */
  lemma {:induction false} TakeAllKeeps(c: Collected, toks: seq<string>, who: Sender)
    requires Sorted(c)
    ensures var d := TakeAll(c, toks);
            && Sorted(d)
            && FirstMatch(d.terms, who) == OrElse(FirstMatch(c.terms, who), FirstMatch(Plain(toks), who))
            && FirstMatch(d.modifiers, who) == OrElse(FirstMatch(c.modifiers, who), FirstMatch(WithEquals(toks), who))
            && FirstRedirect(d.modifiers) == OrElse(FirstRedirect(c.modifiers), FirstRedirect(toks))
            && d.all == CollectedAll(c, toks)
    decreases |toks|
  {
    hide Sorted, Take, HasEquals, IsModifier, IsAllTerm, IsRedirect, MatchedBy, FirstMatch;
    if toks == [] {
      NoFirst(who);
    } else {
      var tok, rest := [toks[0]], toks[1..];
      TakeSorted(c, toks[0]);
      TakeFirst(c, toks[0], who);
      TakeAllKeeps(Take(c, toks[0]), rest, who);
      assert toks == tok + rest;
      PlainHead(toks[0], rest);
      FirstMatchConcat(Plain(tok), Plain(rest), who);
      FirstMatchConcat(WithEquals(tok), WithEquals(rest), who);
      FirstRedirectConcat(tok, rest);
      FirstAllConcat(tok, rest);
    }
  }

  lemma PlainHead(tok: string, rest: seq<string>)
    ensures Plain([tok] + rest) == Plain([tok]) + Plain(rest)
    ensures WithEquals([tok] + rest) == WithEquals([tok]) + WithEquals(rest)
  {
    hide HasEquals, IsAllTerm;
    assert ([tok] + rest)[1..] == rest && [tok][1..] == [];
  }

  lemma NoFirst(who: Sender)
    ensures FirstMatch([], who) == None && FirstRedirect([]) == None && FirstAll([]) == None && Sorted(EMPTY)
  {
  }

  // ---- the new record -----------------------------------------------------------------------

  lemma {:induction false} NoMatchIn(list: seq<string>, who: Sender)
    requires forall i :: 0 <= i < |list| ==> IsModifier(list[i]) || IsAllTerm(list[i])
    ensures FirstMatch(list, who) == None
  {
    hide IsModifier, IsAllTerm, MatchedBy;
    if list != [] { NoMatchIn(list[1..], who); }
  }

  lemma {:induction false} NoAllIn(list: seq<string>)
    requires forall i :: 0 <= i < |list| ==> !IsAllTerm(list[i])
    ensures FirstAll(list) == None
  {
    hide IsAllTerm;
    if list != [] { NoAllIn(list[1..]); }
  }

  lemma {:induction false} NoRedirectIn(list: seq<string>)
    requires forall i :: 0 <= i < |list| ==> !IsRedirect(list[i])
    ensures FirstRedirect(list) == None
  {
    hide IsRedirect;
    if list != [] { NoRedirectIn(list[1..]); }
  }

  lemma {:induction false} RedirectsIffFirst(list: seq<string>)
    ensures Redirects(list) <==> FirstRedirect(list).Some?
  {
    hide IsRedirect;
    if list != [] {
      RedirectsIffFirst(list[1..]);
      if Redirects(list[1..]) {
        var i :| 0 <= i < |list[1..]| && IsRedirect(list[1..][i]);
        assert list[i + 1] == list[1..][i];
      }
      if Redirects(list) && !IsRedirect(list[0]) {
        var i :| 0 <= i < |list| && IsRedirect(list[i]);
        assert list[1..][i - 1] == list[i];
      }
    }
  }

  function Last(c: Collected): seq<string> {
    match c.all
    case Some(a) => [a]
    case None => if Redirects(c.modifiers) then [] else ["~all"]
  }

  lemma SoftFailAll()
    ensures IsAllTerm("~all") && QualifierVerdict("~all") == SoftFail && !HasEquals("~all")
  {
    assert "~all"[1..] == "all";
    AllHasNoEquals("~all");
  }

  /** The three parts of the suggestion, each of its own kind. */
  ghost predicate Parts(terms: seq<string>, modifiers: seq<string>, last: seq<string>) {
    && (forall i :: 0 <= i < |terms| ==> !HasEquals(terms[i]) && !IsAllTerm(terms[i]))
    && (forall i :: 0 <= i < |modifiers| ==> HasEquals(modifiers[i]) && !IsAllTerm(modifiers[i]))
    && (forall i :: 0 <= i < |last| ==> IsAllTerm(last[i]))
  }

  lemma PartsMeaning(terms: seq<string>, modifiers: seq<string>, last: seq<string>, who: Sender)
    requires Parts(terms, modifiers, last)
    ensures var toks := terms + modifiers + last;
            Meaning(toks, who) ==
            Decided(terms + modifiers, who,
                    match FirstAll(last)
                    case Some(a) => QualifierVerdict(a)
                    case None => match FirstRedirect(modifiers) case Some(m) => Redirected(m) case None => Neutral)
  {
    hide HasEquals, IsModifier, IsAllTerm, IsRedirect, MatchedBy, FirstMatch, FirstAll, FirstRedirect, FirstTerm,
         Meaning, QualifierVerdict;
    var toks := terms + modifiers + last;
    PartsAllLast(terms, modifiers, last);
    AllLastMeaning(toks, who);
    FirstMatchConcat(terms + modifiers, last, who);
    NoMatchIn(last, who);
    FirstAllConcat(terms + modifiers, last);
    FirstAllConcat(terms, modifiers);
    NoAllIn(terms);
    NoAllIn(modifiers);
    FirstRedirectConcat(terms + modifiers, last);
    FirstRedirectConcat(terms, modifiers);
    PartsRedirect(terms, last);
    NoRedirectIn(terms);
    NoRedirectIn(last);
  }

  lemma PartsRedirect(terms: seq<string>, last: seq<string>)
    requires Parts(terms, [], last)
    ensures forall i :: 0 <= i < |terms| ==> !IsRedirect(terms[i])
    ensures forall i :: 0 <= i < |last| ==> !IsRedirect(last[i])
  {
    hide HasEquals, IsAllTerm, IsRedirect;
    forall i | 0 <= i < |terms| ensures !IsRedirect(terms[i]) {
      if IsRedirect(terms[i]) { RedirectHasEquals(terms[i]); }
    }
    forall i | 0 <= i < |last| ensures !IsRedirect(last[i]) { AllHasNoEquals(last[i]); }
  }

  lemma PartsAllLast(terms: seq<string>, modifiers: seq<string>, last: seq<string>)
    requires Parts(terms, modifiers, last)
    ensures AllLast(terms + modifiers + last)
  {
    hide HasEquals, IsModifier, IsAllTerm;
  }

  lemma WithMechanismFirst(terms: seq<string>, mech: string, who: Sender)
    requires mech == "" || Addable(mech)
    requires forall i :: 0 <= i < |terms| ==> !HasEquals(terms[i]) && !IsAllTerm(terms[i])
    ensures var more := WithMechanism(terms, mech);
            && FirstMatch(more, who)
               == OrElse(FirstMatch(terms, who), if mech != "" && MatchedBy(mech, who) then Some(mech) else None)
            && forall i :: 0 <= i < |more| ==> !HasEquals(more[i]) && !IsAllTerm(more[i])
  {
    hide HasEquals, IsAllTerm, SameWord, MatchedBy;
    if mech != "" {
      PushFirst(terms, mech, who);
      NotModifier(mech);
      assert [mech][1..] == [];
    }
  }

  /** The mechanisms in the order the suggestion asks them: those without `=`, the added one,
      those with it. */
  function NewOrder(toks: seq<string>, mech: string): seq<string> {
    Plain(toks) + (if mech != "" then [mech] else []) + WithEquals(toks)
  }

  /** What a sender no mechanism matches is told: the record's default, softfail where it has none. */
  function Fallback(toks: seq<string>): Verdict {
    if FirstAll(toks) == None && FirstRedirect(toks) == None then SoftFail else Default(toks)
  }

  /** The suggestion for any one record: the first match in the new order, else the fallback. */
  lemma SuggestionDecides(toks: seq<string>, mech: string, who: Sender)
    requires mech == "" || Addable(mech)
    ensures Meaning(Assemble(TakeAll(EMPTY, toks), mech), who) == Decided(NewOrder(toks, mech), who, Fallback(toks))
  {
    hide HasEquals, IsModifier, IsAllTerm, IsRedirect, MatchedBy, FirstMatch, FirstAll, FirstRedirect, Meaning,
         QualifierVerdict, WithMechanism, TakeAll;
    var c := TakeAll(EMPTY, toks);
    NoFirst(who);
    TakeAllKeeps(EMPTY, toks, who);
    WithMechanismFirst(c.terms, mech, who);
    RedirectsIffFirst(c.modifiers);
    SoftFailAll();
    LastFirst(c);
    LastOfAll(toks);
    PartsMeaning(WithMechanism(c.terms, mech), c.modifiers, Last(c), who);
    FirstMatchConcat(WithMechanism(c.terms, mech), c.modifiers, who);
    NewOrderFirst(toks, mech, who);
  }

  lemma NewOrderFirst(toks: seq<string>, mech: string, who: Sender)
    requires mech == "" || Addable(mech)
    ensures FirstMatch(NewOrder(toks, mech), who) ==
            OrElse(OrElse(FirstMatch(Plain(toks), who), if mech != ""
                && MatchedBy(mech, who) then Some(mech) else None),
                   FirstMatch(WithEquals(toks), who))
  {
    hide HasEquals, IsAllTerm, MatchedBy;
    var added := if mech != "" then [mech] else [];
    FirstMatchConcat(Plain(toks) + added, WithEquals(toks), who);
    FirstMatchConcat(Plain(toks), added, who);
    if mech != "" {
      NotModifier(mech);
      assert [mech][1..] == [];
    }
  }

  /** The suggestion for one regular record: a sender one of its mechanisms matched keeps
      its result; a sender only the added mechanism matches gets that mechanism's qualifier;
      everyone else keeps the record's default, except that where it had neither `all`
      nor a redirect, neutral becomes softfail. */
  lemma SuggestionMeaning(toks: seq<string>, mech: string, who: Sender)
    requires Regular(toks) && (mech == "" || Addable(mech))
    ensures var suggested := Assemble(TakeAll(EMPTY, toks), mech);
            Meaning(suggested, who) ==
            if FirstMatch(toks, who).Some? then Meaning(toks, who)
            else if mech != "" && MatchedBy(mech, who) then QualifierVerdict(mech)
            else if FirstAll(toks) == None && FirstRedirect(toks) == None then SoftFail
            else Meaning(toks, who)
  {
    hide HasEquals, IsModifier, IsAllTerm, MatchedBy, FirstMatch, FirstAll, FirstRedirect, Meaning, QualifierVerdict,
         Assemble, TakeAll;
    SuggestionDecides(toks, mech, who);
    NewOrderFirst(toks, mech, who);
    AllLastMeaning(toks, who);
    PlainMatches(toks, who);
  }

  /** With `=` only in modifiers nothing else matches. */
  lemma {:induction false} PlainMatches(toks: seq<string>, who: Sender)
    requires EqualsInModifiers(toks)
    ensures FirstMatch(Plain(toks), who) == FirstMatch(toks, who) && FirstMatch(WithEquals(toks), who) == None
  {
    hide HasEquals, IsModifier, IsAllTerm, MatchedBy;
    if toks != [] {
      var rest := toks[1..];
      assert forall i :: 0 <= i < |rest| ==> rest[i] == toks[i + 1];
      PlainMatches(rest, who);
      if IsAllTerm(toks[0]) { AllHasNoEquals(toks[0]); }
      if !HasEquals(toks[0]) { NotModifier(toks[0]); }
      FirstMatchConcat(if HasEquals(toks[0]) || IsAllTerm(toks[0]) then [] else [toks[0]], Plain(rest), who);
      FirstMatchConcat(if HasEquals(toks[0]) && !IsAllTerm(toks[0]) then [toks[0]] else [], WithEquals(rest), who);
      assert [toks[0]][1..] == [];
    }
  }

  lemma LastFirst(c: Collected)
    requires Sorted(c)
    ensures FirstAll(Last(c)) == if c.all.Some? then c.all else if Redirects(c.modifiers) then None else Some("~all")
    ensures forall i :: 0 <= i < |Last(c)| ==> IsAllTerm(Last(c)[i])
  {
    hide IsAllTerm;
    SoftFailAll();
  }

  lemma LastOfAll(toks: seq<string>)
    ensures FirstAll(toks).Some? ==>
            QualifierVerdict(LowerAll(FirstAll(toks).value)) == QualifierVerdict(FirstAll(toks).value)
  {
    if FirstAll(toks).Some? { LowerAllTerm(FirstAll(toks).value); }
  }

  // ---- the record as text ------------------------------------------------------------------------

  ghost predicate AllWords(toks: seq<string>) {
    forall i :: 0 <= i < |toks| ==> IsWord(toks[i])
  }

  ghost predicate WordParts(c: Collected) {
    AllWords(c.terms) && AllWords(c.modifiers) && (c.all.Some? ==> IsWord(c.all.value))
  }

  lemma LowerWord(tok: string)
    requires IsWord(tok)
    ensures IsWord(LowerAll(tok))
  {
    forall i | 0 <= i < |tok| ensures !IsSpace(LowerAll(tok)[i]) { LowerSpace(tok[i]); }
  }

  lemma LowerSpace(c: char)
    ensures IsSpace(Lower(c)) == IsSpace(c)
  {
  }

  lemma {:induction false} TakeAllWords(c: Collected, toks: seq<string>)
    requires WordParts(c) && AllWords(toks)
    ensures WordParts(TakeAll(c, toks))
    decreases |toks|
  {
    hide IsWord, HasEquals, IsAllTerm, SameWord;
    if toks != [] {
      if IsAllTerm(toks[0]) { LowerWord(toks[0]); }
      assert forall i :: 0 <= i < |toks[1..]| ==> toks[1..][i] == toks[i + 1];
      TakeAllWords(Take(c, toks[0]), toks[1..]);
    }
  }

  lemma BodyWords(record: string)
    ensures AllWords(Body(record))
  {
    hide IsWord;
    WordsAreWords(record);
    var toks := Words(record);
    assert forall i :: 0 <= i < |toks| ==> toks[i] in toks;
  }

  lemma {:induction false} TakeRecordsWords(c: Collected, records: seq<string>)
    requires WordParts(c)
    ensures WordParts(TakeRecords(c, records))
    decreases |records|
  {
    hide WordParts, TakeAll, Body;
    if records != [] {
      BodyWords(records[0]);
      TakeAllWords(c, Body(records[0]));
      TakeRecordsWords(TakeAll(c, Body(records[0])), records[1..]);
    }
  }

  lemma FixedWords()
    ensures IsWord("v=spf1") && IsWord("~all")
  {
  }

  lemma AssembleWords(c: Collected, mech: string)
    requires WordParts(c) && (mech == "" || IsWord(mech))
    ensures AllWords(["v=spf1"] + Assemble(c, mech))
  {
    hide IsWord, SameWord;
    FixedWords();
  }

  /** The suggestion's tokens, read back from its text: the version, then the assembled terms. */
  lemma SuggestedWords(current: seq<string>, mech: string)
    requires exists i :: 0 <= i < |current| && Trim(current[i]) != ""
    requires mech == "" || IsWord(mech)
    ensures Words(Suggested(current, mech)) == ["v=spf1"] + Assemble(TakeRecords(EMPTY, current), mech)
  {
    hide WordParts, Trim, Words, IsWord, Assemble, TakeRecords;
    EmptyWords();
    TakeRecordsWords(EMPTY, current);
    var c := TakeRecords(EMPTY, current);
    AssembleWords(c, mech);
    WordsOfJoin(["v=spf1"] + Assemble(c, mech));
  }

  lemma EmptyWords()
    ensures WordParts(EMPTY)
  {
  }

  /** The law for one published record, text in and text out. */
  lemma SuggestedRecordMeaning(record: string, mech: string, who: Sender)
    requires Words(record) != [] && IsVersion(Words(record)[0]) && Regular(Body(record))
             && (mech == "" || Addable(mech))
    ensures var suggested := Suggested([record], mech);
            && Words(suggested) != [] && Words(suggested)[0] == "v=spf1"
            && var published := Words(record)[1..];
               Meaning(Words(suggested)[1..], who) ==
               if FirstMatch(published, who).Some? then Meaning(published, who)
               else if mech != "" && MatchedBy(mech, who) then QualifierVerdict(mech)
               else if FirstAll(published) == None && FirstRedirect(published) == None then SoftFail
               else Meaning(published, who)
  {
    hide Words, Regular, Meaning, FirstMatch, FirstAll, FirstRedirect, Assemble, TakeAll, IsVersion, HasEquals,
         IsAllTerm, IsWord, MatchedBy;
    if Trim(record) == "" { BlankWords(record); }
    assert [record][0] == record && [record][1..] == [];
    SuggestedWords([record], mech);
    var c := TakeAll(EMPTY, Body(record));
    assert TakeRecords(EMPTY, [record]) == c;
    assert (["v=spf1"] + Assemble(c, mech))[1..] == Assemble(c, mech);
    SuggestionMeaning(Body(record), mech, who);
  }

  // ---- one version, one `all` --------------------------------------------------------------------

  function CountAll(toks: seq<string>): nat {
    if toks == [] then 0 else (if IsAllTerm(toks[0]) then 1 else 0) + CountAll(toks[1..])
  }

  lemma {:induction false} CountAllConcat(a: seq<string>, b: seq<string>)
    ensures CountAll(a + b) == CountAll(a) + CountAll(b)
  {
    hide IsAllTerm;
    if a == [] { assert a + b == b; } else { assert (a + b)[1..] == a[1..] + b; CountAllConcat(a[1..], b); }
  }

  lemma {:induction false} CountAllNone(toks: seq<string>)
    requires forall i :: 0 <= i < |toks| ==> !IsAllTerm(toks[i])
    ensures CountAll(toks) == 0
  {
    hide IsAllTerm;
    if toks != [] { CountAllNone(toks[1..]); }
  }

  lemma {:induction false} TakeAllSorted(c: Collected, toks: seq<string>)
    requires Sorted(c)
    ensures Sorted(TakeAll(c, toks))
    decreases |toks|
  {
    hide Sorted, Take;
    if toks != [] {
      TakeSorted(c, toks[0]);
      TakeAllSorted(Take(c, toks[0]), toks[1..]);
    }
  }

  lemma {:induction false} TakeRecordsSorted(c: Collected, records: seq<string>)
    requires Sorted(c)
    ensures Sorted(TakeRecords(c, records))
    decreases |records|
  {
    hide Sorted, TakeAll, Body;
    if records != [] {
      TakeAllSorted(c, Body(records[0]));
      TakeRecordsSorted(TakeAll(c, Body(records[0])), records[1..]);
    }
  }

  /** However many records are merged, the suggestion has at most one `all`, as its last
      term, and exactly one unless a redirect does its work. */
  lemma OneAll(records: seq<string>, mech: string)
    requires mech == "" || Addable(mech)
    ensures var c := TakeRecords(EMPTY, records);
            var toks := Assemble(c, mech);
            && CountAll(toks) == (if c.all == None && Redirects(c.modifiers) then 0 else 1)
            && (CountAll(toks) == 1 ==> IsAllTerm(toks[|toks| - 1]))
  {
    hide HasEquals, IsAllTerm, IsRedirect, MatchedBy, TakeRecords, SameWord, WithMechanism;
    var c := TakeRecords(EMPTY, records);
    TakeRecordsSorted(EMPTY, records);
    var terms := WithMechanism(c.terms, mech);
    WithMechanismFirst(c.terms, mech, x => false);
    CountAllConcat(terms + c.modifiers, Last(c));
    CountAllConcat(terms, c.modifiers);
    CountAllNone(terms);
    CountAllNone(c.modifiers);
    LastFirst(c);
    if Last(c) != [] { assert Last(c)[1..] == []; }
  }

  ghost predicate HasVersion(toks: seq<string>) {
    exists i :: 0 <= i < |toks| && IsVersion(toks[i])
  }

  lemma VersionHasEquals(tok: string)
    requires IsVersion(tok)
    ensures HasEquals(tok) && !IsAllTerm(tok)
  {
    assert LowerAll("v=spf1") == "v=spf1";
    assert Lower(tok[1]) == '=';
    assert tok[1] == '=';
    if IsAllTerm(tok) { AllHasNoEquals(tok); }
  }

  lemma PushVersion(list: seq<string>, tok: string)
    ensures HasVersion(Push(list, tok)) <==> HasVersion(list) || IsVersion(tok)
  {
    var more := Push(list, tok);
    if HasVersion(list) {
      var i :| 0 <= i < |list| && IsVersion(list[i]);
      assert more[i] == list[i];
    }
    if IsVersion(tok) {
      if Has(list, tok) {
        var i :| 0 <= i < |list| && SameWord(list[i], tok);
        assert IsVersion(more[i]);
      } else {
        assert IsVersion(more[|list|]);
      }
    }
  }

  lemma {:induction false} TakeAllVersion(c: Collected, toks: seq<string>)
    requires Sorted(c)
    ensures HasVersion(TakeAll(c, toks).modifiers) <==> HasVersion(c.modifiers) || HasVersion(toks)
    decreases |toks|
  {
    hide Sorted, IsAllTerm, HasEquals, Push, IsVersion;
    if toks != [] {
      var c', rest := Take(c, toks[0]), toks[1..];
      TakeSorted(c, toks[0]);
      PushVersion(c.modifiers, toks[0]);
      if IsVersion(toks[0]) { VersionHasEquals(toks[0]); }
      TakeAllVersion(c', rest);
      HasVersionHead(toks);
    }
  }

  lemma HasVersionHead(toks: seq<string>)
    requires toks != []
    ensures HasVersion(toks) <==> IsVersion(toks[0]) || HasVersion(toks[1..])
  {
    hide IsVersion;
    if HasVersion(toks) && !IsVersion(toks[0]) {
      var i :| 0 <= i < |toks| && IsVersion(toks[i]);
      assert toks[1..][i - 1] == toks[i];
    }
    if HasVersion(toks[1..]) {
      var i :| 0 <= i < |toks[1..]| && IsVersion(toks[1..][i]);
      assert toks[i + 1] == toks[1..][i];
    }
  }

  /** Some record names the version again past its first token. */
  ghost predicate VersionInside(records: seq<string>) {
    records != [] && (HasVersion(Body(records[0])) || VersionInside(records[1..]))
  }

  lemma {:induction false} TakeRecordsVersion(c: Collected, records: seq<string>)
    requires Sorted(c)
    ensures HasVersion(TakeRecords(c, records).modifiers) <==> HasVersion(c.modifiers) || VersionInside(records)
    decreases |records|
  {
    hide Sorted, TakeAll, Body, HasVersion;
    if records != [] {
      TakeAllSorted(c, Body(records[0]));
      TakeAllVersion(c, Body(records[0]));
      TakeRecordsVersion(TakeAll(c, Body(records[0])), records[1..]);
    }
  }

  /** The suggestion names the version exactly once, unless some record named it inside. */
  lemma OneVersion(records: seq<string>, mech: string)
    requires mech == "" || Addable(mech)
    ensures HasVersion(Assemble(TakeRecords(EMPTY, records), mech)) <==> VersionInside(records)
  {
    hide HasEquals, IsAllTerm, IsRedirect, TakeRecords, SameWord, WithMechanism, IsVersion, VersionInside, HasVersion;
    var c := TakeRecords(EMPTY, records);
    TakeRecordsSorted(EMPTY, records);
    TakeRecordsVersion(EMPTY, records);
    var terms := WithMechanism(c.terms, mech);
    WithMechanismFirst(c.terms, mech, x => false);
    LastFirst(c);
    forall i | 0 <= i < |Last(c)| ensures !HasEquals(Last(c)[i]) { AllHasNoEquals(Last(c)[i]); }
    NoVersionIn(terms);
    NoVersionIn(Last(c));
    VersionConcat(terms + c.modifiers, Last(c));
    VersionConcat(terms, c.modifiers);
    NoVersionAtAll();
  }

  lemma NoVersionIn(toks: seq<string>)
    requires forall i :: 0 <= i < |toks| ==> !HasEquals(toks[i])
    ensures !HasVersion(toks)
  {
    hide HasEquals, IsVersion;
    if HasVersion(toks) {
      var i :| 0 <= i < |toks| && IsVersion(toks[i]);
      VersionHasEquals(toks[i]);
      assert false;
    }
  }

  lemma VersionConcat(a: seq<string>, b: seq<string>)
    ensures HasVersion(a + b) <==> HasVersion(a) || HasVersion(b)
  {
    hide IsVersion;
    if HasVersion(a) {
      var i :| 0 <= i < |a| && IsVersion(a[i]);
      assert (a + b)[i] == a[i];
    }
    if HasVersion(b) {
      var i :| 0 <= i < |b| && IsVersion(b[i]);
      assert (a + b)[|a| + i] == b[i];
    }
  }

  lemma NoVersionAtAll()
    ensures !HasVersion(EMPTY.modifiers)
  {
  }

  // ---- where the law stops -------------------------------------------------------------------------

  /** A record that puts `all` first: the suggestion lets in senders it turned away. */
  lemma AllFirstChangesMeaning()
    ensures var published := ["-all", "mx"];
            var who: Sender := m => m == "mx";
            Meaning(published, who) == Fail && Meaning(Assemble(TakeAll(EMPTY, published), ""), who) == Pass
  {
    var published := ["-all", "mx"];
    assert "-all"[1..] == "all" && LowerAll("all") == "all" && LowerAll("-all") == "-all" && LowerAll("mx") == "mx";
    assert IsAllTerm("-all");
    AllHasNoEquals("-all");
    assert IndexOf("mx", '=') == 2;
    assert |LowerAll("mx")| != |LowerAll("all")|;
    assert !IsAllTerm("mx") && !HasEquals("mx") && !IsModifier("mx");
    var c := Take(Take(EMPTY, "-all"), "mx");
    assert published[1..] == ["mx"] && ["mx"][1..] == [];
    assert TakeAll(EMPTY, published) == c;
    assert c == Collected(["mx"], [], Some("-all"));
    assert Assemble(c, "") == ["mx", "-all"];
  }

  /** A record that names the version twice, and so does the suggestion made of it. */
  lemma TwoVersions(record: string)
    requires record == "v=spf1 a v=spf1 mx"
    ensures var suggested := Words(Suggested([record], ""));
            suggested != [] && IsVersion(suggested[0]) && HasVersion(suggested[1..])
  {
    hide Words, Assemble, TakeRecords, Suggested, IsVersion, HasVersion;
    RecordWords(record, ["v=spf1", "a", "v=spf1", "mx"]);
    OneVersion([record], "");
    SuggestedWords([record], "");
    var rest := Assemble(TakeRecords(EMPTY, [record]), "");
    assert (["v=spf1"] + rest)[1..] == rest;
  }

  lemma RecordWords(record: string, toks: seq<string>)
    requires record == "v=spf1 a v=spf1 mx" && toks == ["v=spf1", "a", "v=spf1", "mx"]
    ensures VersionInside([record]) && Trim([record][0]) != "" && IsVersion("v=spf1")
  {
    hide Words, Trim;
    assert toks[1..] == ["a", "v=spf1", "mx"] && toks[1..][1..] == ["v=spf1", "mx"] && toks[1..][1..][1..] == ["mx"];
    assert JoinWords(["mx"]) == "mx";
    assert JoinWords(toks[1..][1..]) == "v=spf1" + " " + "mx" == "v=spf1 mx";
    assert JoinWords(toks[1..]) == "a" + " " + "v=spf1 mx" == "a v=spf1 mx";
    assert JoinWords(toks) == "v=spf1" + " " + "a v=spf1 mx" == record;
    WordsOfJoin(toks);
    if Trim(record) == "" { BlankWords(record); }
    assert IsVersion(toks[1..][1]);
  }
}
