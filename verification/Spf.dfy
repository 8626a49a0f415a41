/** The SPF record suggested for a domain (acctdns.rs), and what it means to
    senders (RFC 7208). */
module Spf {
  import opened Options
  import opened Text

  predicate SameWord(a: string, b: string) {
    LowerAll(a) == LowerAll(b)
  }

  predicate IsVersion(tok: string) {
    SameWord(tok, "v=spf1")
  }

  predicate HasQualifier(tok: string) {
    tok != "" && (tok[0] == '+' || tok[0] == '-' || tok[0] == '~' || tok[0] == '?')
  }

  function Mechanism(tok: string): string {
    if HasQualifier(tok) then tok[1..] else tok
  }

  predicate IsAllTerm(tok: string) {
    SameWord(Mechanism(tok), "all")
  }

  predicate HasEquals(tok: string) {
    IndexOf(tok, '=') < |tok|
  }

  // ---- the suggestion -------------------------------------------------------------------

  /** The server's outgoing address. */
  datatype OutIp = NoIp | V4(text: string) | V6(text: string)

  function SpfMechanism(expected: string, outIp: OutIp): string {
    var e := Trim(expected);
    if e != "" then e
    else match outIp case V4(ip) => "ip4:" + ip case V6(ip) => "ip6:" + ip case NoIp => ""
  }

  predicate Has(list: seq<string>, tok: string) {
    exists i :: 0 <= i < |list| && SameWord(list[i], tok)
  }

  function Push(list: seq<string>, tok: string): seq<string> {
    if Has(list, tok) then list else list + [tok]
  }

  datatype Collected = Collected(terms: seq<string>, modifiers: seq<string>, all: Option<string>)

  function Take(c: Collected, tok: string): Collected {
    if IsAllTerm(tok) then (if c.all.None? then c.(all := Some(LowerAll(tok))) else c)
    else if HasEquals(tok) then c.(modifiers := Push(c.modifiers, tok))
    else c.(terms := Push(c.terms, tok))
  }

  function TakeAll(c: Collected, toks: seq<string>): Collected
    decreases |toks|
  {
    if toks == [] then c else TakeAll(Take(c, toks[0]), toks[1..])
  }

  /** The tokens of a record after its version. */
  function Body(record: string): seq<string> {
    var toks := Words(record);
    if toks != [] && IsVersion(toks[0]) then toks[1..] else toks
  }

  function TakeRecords(c: Collected, records: seq<string>): Collected
    decreases |records|
  {
    if records == [] then c else TakeRecords(TakeAll(c, Body(records[0])), records[1..])
  }

  predicate IsRedirect(tok: string) {
    "redirect=" <= LowerAll(tok)
  }

  predicate Redirects(modifiers: seq<string>) {
    exists i :: 0 <= i < |modifiers| && IsRedirect(modifiers[i])
  }

  /** The terms with the missing mechanism in. */
  function WithMechanism(terms: seq<string>, mech: string): seq<string> {
    if mech != "" then Push(terms, mech) else terms
  }

  /** Mechanisms, modifiers, and the term for everyone else. */
  function Assemble(c: Collected, mech: string): seq<string> {
    WithMechanism(c.terms, mech) + c.modifiers
    + match c.all
      case Some(a) => [a]
      case None => if Redirects(c.modifiers) then [] else ["~all"]
  }

  const EMPTY := Collected([], [], None)

  function Suggested(current: seq<string>, mech: string): string {
    if forall i :: 0 <= i < |current| ==> Trim(current[i]) == "" then
      if mech == "" then "v=spf1 +mx +a ~all" else "v=spf1 +mx +a " + mech + " ~all"
    else JoinWords(["v=spf1"] + Assemble(TakeRecords(EMPTY, current), mech))
  }

  method SuggestSpf(current: seq<string>, expected: string, outIp: OutIp) returns (record: string)
    ensures record == Suggested(current, SpfMechanism(expected, outIp))
  {
    hide Take, Words, Trim, SpfMechanism, IsVersion;
    var mech := SpfMechanism(expected, outIp);
    var records := NonBlank(current);
    if records == [] {
      return if mech == "" then "v=spf1 +mx +a ~all" else "v=spf1 +mx +a " + mech + " ~all";
    }
    var c := EMPTY;
    assert records[0..] == records;
    for r := 0 to |records|
      invariant TakeRecords(EMPTY, records) == TakeRecords(c, records[r..])
    {
      ghost var c' := c;
      var toks := Words(records[r]);
      var from := if toks != [] && IsVersion(toks[0]) then 1 else 0;
      assert toks[from..] == Body(records[r]);
      for i := from to |toks|
        invariant TakeAll(c', Body(records[r])) == TakeAll(c, toks[i..])
      {
        assert toks[i..][1..] == toks[i + 1..];
        c := Take(c, toks[i]);
      }
      assert toks[|toks|..] == [];
      assert records[r..][1..] == records[r + 1..];
    }
    assert records[|records|..] == [];
    TakeNonBlank(EMPTY, current, records);
    var out := ["v=spf1"] + Assemble(c, mech);
    record := JoinWords(out);
  }

  function Filtered(current: seq<string>): seq<string> {
    if current == [] then [] else (if Trim(current[0]) != "" then [current[0]] else []) + Filtered(current[1..])
  }

  method NonBlank(current: seq<string>) returns (records: seq<string>)
    ensures records == Filtered(current)
    ensures records == [] <==> forall i :: 0 <= i < |current| ==> Trim(current[i]) == ""
  {
    hide Trim, Filtered;
    records := [];
    assert current[0..] == current;
    for i := 0 to |current|
      invariant records + Filtered(current[i..]) == Filtered(current)
    {
      FilteredStep(current, i, records);
      if Trim(current[i]) != "" { records := records + [current[i]]; }
    }
    assert current[|current|..] == [];
    FilteredEmpty([]);
    FilteredEmpty(current);
  }

  lemma FilteredStep(current: seq<string>, i: nat, records: seq<string>)
    requires i < |current|
    ensures records + Filtered(current[i..])
            == (if Trim(current[i]) != "" then records + [current[i]] else records) + Filtered(current[i + 1..])
  {
    hide Trim;
    assert current[i..][1..] == current[i + 1..];
  }

  lemma {:induction false} FilteredEmpty(current: seq<string>)
    ensures Filtered(current) == [] <==> forall i :: 0 <= i < |current| ==> Trim(current[i]) == ""
  {
    hide Trim;
    if current != [] { FilteredEmpty(current[1..]); }
  }

  /** A blank record has no tokens. */
  lemma {:induction false} BlankWords(s: string)
    requires Trim(s) == ""
    ensures Words(s) == []
  {
    var a, b := TrimParts(s);
    assert s == a + b;
    SpaceWords(s);
  }

  lemma {:induction false} SpaceWords(s: string)
    requires AllSpace(s)
    ensures Words(s) == []
  {
    if s != "" {
      assert IsSpace(s[0]);
      SpaceWords(s[1..]);
    }
  }

  lemma {:induction false} TakeNonBlank(c: Collected, current: seq<string>, records: seq<string>)
    requires records == Filtered(current)
    ensures TakeRecords(c, records) == TakeRecords(c, current)
    decreases |current|
  {
    hide Take, Words, Trim, IsVersion;
    if current != [] {
      var rest := Filtered(current[1..]);
      TakeNonBlank(TakeAll(c, Body(current[0])), current[1..], rest);
      if Trim(current[0]) == "" {
        BlankWords(current[0]);
        assert records == rest;
      } else {
        assert records[1..] == rest;
      }
    }
  }

  // ---- what a record means (RFC 7208) ---------------------------------------------------------

  datatype Verdict = Pass | Fail | SoftFail | Neutral | Redirected(modifier: string)

  /** Section 4.6.2: the qualifier is the result when the mechanism matches. */
  function QualifierVerdict(tok: string): Verdict {
    if !HasQualifier(tok) || tok[0] == '+' then Pass
    else if tok[0] == '-' then Fail
    else if tok[0] == '~' then SoftFail
    else Neutral
  }

  /** A sender: which mechanisms match it, told without regard to case. */
  type Sender = string -> bool

  predicate MatchedBy(tok: string, who: Sender) {
    who(LowerAll(Mechanism(tok)))
  }

  /** Section 4.6.1: a modifier is a name, `=`, and a value; in a mechanism `:` or `/` follows the name. */
  predicate IsModifier(tok: string) {
    HasEquals(tok) && IndexOf(tok, '=') <= IndexOf(tok, ':') && IndexOf(tok, '=') <= IndexOf(tok, '/')
  }

  /** The first mechanism other than `all` that matches (section 4.6.2). */
  function FirstMatch(toks: seq<string>, who: Sender): Option<string> {
    if toks == [] then None
    else if !IsModifier(toks[0]) && !IsAllTerm(toks[0]) && MatchedBy(toks[0], who) then Some(toks[0])
    else FirstMatch(toks[1..], who)
  }

  /** Left to right, the first term that matches; `all` matches every sender (section 5.1). */
  function FirstTerm(toks: seq<string>, who: Sender): Option<string> {
    if toks == [] then None
    else if !IsModifier(toks[0]) && (IsAllTerm(toks[0]) || MatchedBy(toks[0], who)) then Some(toks[0])
    else FirstTerm(toks[1..], who)
  }

  function FirstAll(toks: seq<string>): Option<string> {
    if toks == [] then None else if IsAllTerm(toks[0]) then Some(toks[0]) else FirstAll(toks[1..])
  }

  function FirstRedirect(toks: seq<string>): Option<string> {
    if toks == [] then None else if IsRedirect(toks[0]) then Some(toks[0]) else FirstRedirect(toks[1..])
  }

  /** Sections 4.7 and 6.1: with no match, the redirect decides, and without one the result is neutral. */
  function Meaning(toks: seq<string>, who: Sender): Verdict {
    match FirstTerm(toks, who)
    case Some(t) => QualifierVerdict(t)
    case None => match FirstRedirect(toks) case Some(m) => Redirected(m) case None => Neutral
  }

  /** What the record says to senders none of its mechanisms matches. */
  function Default(toks: seq<string>): Verdict {
    match FirstAll(toks)
    case Some(a) => QualifierVerdict(a)
    case None => match FirstRedirect(toks) case Some(m) => Redirected(m) case None => Neutral
  }

  /** A record body the suggestion keeps the meaning of: `=` only in modifiers, `all` after
      every other mechanism. */
  ghost predicate Regular(toks: seq<string>) {
    && (forall i :: 0 <= i < |toks| && HasEquals(toks[i]) ==> IsModifier(toks[i]))
    && (forall i, j :: 0 <= i < j < |toks| && IsAllTerm(toks[i]) ==> IsAllTerm(toks[j]) || IsModifier(toks[j]))
  }

  /** A mechanism to add: one word, not a modifier, not `all`. */
  predicate Addable(mech: string) {
    IsWord(mech) && !HasEquals(mech) && !IsAllTerm(mech)
  }
}
