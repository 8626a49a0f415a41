/** Which published records the suggestion keeps the meaning of, exactly: those where no
    mechanism it moves is overtaken, for some sender, by one that says otherwise. */
module SpfOrder {
  import opened Options
  import opened Text
  import opened Spf
  import opened SpfMeaning

  /** What a mechanism tests, without its qualifier and its case. */
  function Tested(tok: string): string {
    LowerAll(Mechanism(tok))
  }

  predicate IsMechanism(tok: string) {
    !IsModifier(tok) && !IsAllTerm(tok)
  }

  function BeforeAll(toks: seq<string>): seq<string> {
    if toks == [] || IsAllTerm(toks[0]) then [] else [toks[0]] + BeforeAll(toks[1..])
  }

  /** The mechanisms in the order the promise asks them: the record's, up to its `all`, then
      the added one. */
  function OldOrder(toks: seq<string>, mech: string): seq<string> {
    BeforeAll(toks) + (if mech != "" then [mech] else [])
  }

  /** What the suggestion promises a sender: the result of the term that decided for it, unless
      that was `all` or nothing; then the added mechanism's, if it matches, else the fallback. */
  function Promised(toks: seq<string>, mech: string, who: Sender): Verdict {
    match FirstTerm(toks, who)
    case Some(t) => if IsAllTerm(t) then Unmatched(toks, mech, who) else QualifierVerdict(t)
    case None => Unmatched(toks, mech, who)
  }

  function Unmatched(toks: seq<string>, mech: string, who: Sender): Verdict {
    if mech != "" && MatchedBy(mech, who) then QualifierVerdict(mech) else Fallback(toks)
  }

  ghost predicate Keeps(toks: seq<string>, mech: string, who: Sender) {
    Meaning(Assemble(TakeAll(EMPTY, toks), mech), who) == Promised(toks, mech, who)
  }

  // ---- two orders of mechanisms ---------------------------------------------------------------

  /** What the terms `i` and `j` test; past the end of its list a term is the fallback, and tests nothing. */
  function TestedAt(x: seq<string>, i: nat, y: seq<string>, j: nat): set<string> {
    (if i < |x| then {Tested(x[i])} else {}) + (if j < |y| then {Tested(y[j])} else {})
  }

  /** None of the first `n` mechanisms tests any of these. */
  ghost predicate Untested(toks: seq<string>, n: nat, tested: set<string>)
    requires n <= |toks|
  {
    forall k :: 0 <= k < n && IsMechanism(toks[k]) ==> Tested(toks[k]) !in tested
  }

  /** Some sender can be decided by term `i` of the one list and by term `j` of the other. */
  ghost predicate BothDecide(x: seq<string>, i: nat, y: seq<string>, j: nat) {
    && i <= |x| && j <= |y|
    && (i < |x| ==> IsMechanism(x[i])) && (j < |y| ==> IsMechanism(y[j]))
    && Untested(x, i, TestedAt(x, i, y, j)) && Untested(y, j, TestedAt(x, i, y, j))
  }

  function VerdictAt(x: seq<string>, i: nat, otherwise: Verdict): Verdict {
    if i < |x| then QualifierVerdict(x[i]) else otherwise
  }

  /** Terms that can decide for one sender say the same. */
  ghost predicate Agree(x: seq<string>, y: seq<string>, otherwise: Verdict) {
    forall i: nat, j: nat :: BothDecide(x, i, y, j) ==> VerdictAt(x, i, otherwise) == VerdictAt(y, j, otherwise)
  }

  /** Term `i` is the first that matches the sender; past the end, none does. */
  ghost predicate DecidesAt(toks: seq<string>, i: nat, who: Sender) {
    && i <= |toks| && (i < |toks| ==> IsMechanism(toks[i]) && MatchedBy(toks[i], who))
    && forall k :: 0 <= k < i && IsMechanism(toks[k]) ==> !MatchedBy(toks[k], who)
  }

  lemma {:induction false} DecidedAt(toks: seq<string>, i: nat, who: Sender, otherwise: Verdict)
    requires DecidesAt(toks, i, who)
    ensures Decided(toks, who, otherwise) == VerdictAt(toks, i, otherwise)
    decreases |toks|
  {
    hide IsModifier, IsAllTerm, MatchedBy, QualifierVerdict;
    if i > 0 {
      assert forall k :: 0 <= k < |toks| - 1 ==> toks[1..][k] == toks[k + 1];
      DecidedAt(toks[1..], i - 1, who, otherwise);
    }
  }

  lemma {:induction false} Decider(toks: seq<string>, who: Sender) returns (i: nat)
    ensures DecidesAt(toks, i, who)
  {
    hide IsModifier, IsAllTerm, MatchedBy;
    if toks == [] || (IsMechanism(toks[0]) && MatchedBy(toks[0], who)) {
      i := 0;
    } else {
      var k := Decider(toks[1..], who);
      i := k + 1;
      assert forall n :: 0 <= n < |toks| - 1 ==> toks[1..][n] == toks[n + 1];
    }
  }

  /** Two lists decide alike for every sender exactly when they agree term by term. */
  lemma OrdersAlike(x: seq<string>, y: seq<string>, otherwise: Verdict)
    ensures (forall who: Sender :: Decided(x, who, otherwise) == Decided(y, who, otherwise)) <==> Agree(x, y, otherwise)
  {
    hide IsMechanism, Mechanism, Decided, QualifierVerdict;
    if Agree(x, y, otherwise) {
      forall who: Sender ensures Decided(x, who, otherwise) == Decided(y, who, otherwise) {
        var i := Decider(x, who);
        var j := Decider(y, who);
        DecidedAt(x, i, who, otherwise);
        DecidedAt(y, j, who, otherwise);
        assert BothDecide(x, i, y, j);
      }
    }
    if forall who: Sender :: Decided(x, who, otherwise) == Decided(y, who, otherwise) {
      forall i: nat, j: nat | BothDecide(x, i, y, j) ensures VerdictAt(x, i, otherwise) == VerdictAt(y, j, otherwise) {
        var tested := TestedAt(x, i, y, j);
        var who: Sender := m => m in tested;
        DecidedAt(x, i, who, otherwise);
        DecidedAt(y, j, who, otherwise);
      }
    }
  }

  // ---- the promise as an order -----------------------------------------------------------------

  lemma {:induction false} FirstTermBefore(toks: seq<string>, who: Sender)
    ensures match FirstMatch(BeforeAll(toks), who)
            case Some(t) => FirstTerm(toks, who) == Some(t) && !IsAllTerm(t)
            case None => FirstTerm(toks, who).Some? ==> IsAllTerm(FirstTerm(toks, who).value)
  {
    hide IsModifier, IsAllTerm, MatchedBy;
    if toks != [] && !IsAllTerm(toks[0]) { FirstTermBefore(toks[1..], who); }
    if toks != [] && IsAllTerm(toks[0]) { AllHasNoEquals(toks[0]); }
  }

  lemma PromisedOrder(toks: seq<string>, mech: string, who: Sender)
    requires mech == "" || Addable(mech)
    ensures Promised(toks, mech, who) == Decided(OldOrder(toks, mech), who, Fallback(toks))
  {
    hide HasEquals, IsAllTerm, MatchedBy, FirstTerm, QualifierVerdict, BeforeAll, Fallback;
    FirstTermBefore(toks, who);
    var added := if mech != "" then [mech] else [];
    FirstMatchConcat(BeforeAll(toks), added, who);
    if mech != "" {
      NotModifier(mech);
      assert [mech][1..] == [];
    }
  }

  /** For every record: every sender gets what it is promised exactly when any two terms that
      can decide for one sender, one in the record's order and one in the suggestion's, say the same. */
  lemma MeaningKeptIff(toks: seq<string>, mech: string)
    requires mech == "" || Addable(mech)
    ensures (forall who: Sender :: Keeps(toks, mech, who))
            <==> Agree(OldOrder(toks, mech), NewOrder(toks, mech), Fallback(toks))
  {
    hide Addable, OldOrder, NewOrder, Agree, Decided, Promised, Meaning, Assemble, TakeAll, Fallback;
    var x, y, d := OldOrder(toks, mech), NewOrder(toks, mech), Fallback(toks);
    forall who: Sender ensures Keeps(toks, mech, who) <==> Decided(x, who, d) == Decided(y, who, d) {
      SuggestionDecides(toks, mech, who);
      PromisedOrder(toks, mech, who);
    }
    OrdersAlike(x, y, d);
  }

  /** Records with `=` only in modifiers and `all` after every other mechanism are among them. */
  lemma RegularKept(toks: seq<string>, mech: string, who: Sender)
    requires Regular(toks) && (mech == "" || Addable(mech))
    ensures Keeps(toks, mech, who)
  {
    hide HasEquals, IsModifier, IsAllTerm, MatchedBy, FirstMatch, FirstAll, FirstTerm, FirstRedirect,
         QualifierVerdict, Assemble, TakeAll;
    SuggestionMeaning(toks, mech, who);
    AllLastFirstTerm(toks, who);
    TermIsAll(toks, who);
  }

  /** The deciding term is an `all` exactly when it is no first match. */
  lemma {:induction false} TermIsAll(toks: seq<string>, who: Sender)
    ensures FirstMatch(toks, who).Some? ==> !IsAllTerm(FirstMatch(toks, who).value)
    ensures FirstAll(toks).Some? ==> IsAllTerm(FirstAll(toks).value)
  {
    hide IsModifier, IsAllTerm, MatchedBy;
    if toks != [] { TermIsAll(toks[1..], who); }
  }
}
