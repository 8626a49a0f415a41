/** The match-rule store (autoban.rs): ids are issued once and never again, over
    any sequence of saves. */
module RuleIds {
  import opened Options

  /** A rule: its id (0 until stored), what it says, when it was created ("" until stored). */
  datatype Rule = Rule(id: nat, body: string, created: string)

  /** The file: `{"next_id": N, "rules": [...]}`. */
  datatype Store = Store(nextId: nat, rules: seq<Rule>)

  function MaxId(rules: seq<Rule>): nat {
    if rules == [] then 0
    else var m := MaxId(rules[1..]); if rules[0].id > m then rules[0].id else m
  }

  function Max(a: nat, b: nat): nat {
    if a >= b then a else b
  }

  /** `None` is a file that is absent or does not parse. */
  function Load(file: Option<Store>): Store {
    match file
    case None => Store(1, [])
    case Some(s) => Store(Max(Max(s.nextId, MaxId(s.rules) + 1), 1), s.rules)
  }

  /** The rules as stored and the next id, when ids from `next` on are free. */
  function Assign(rules: seq<Rule>, next: nat, now: string): (seq<Rule>, nat) {
    if rules == [] then ([], next)
    else
      var (r, next') := Stored(rules[0], next, now);
      var (out, last) := Assign(rules[1..], next', now);
      ([r] + out, last)
  }

  function Stored(r: Rule, next: nat, now: string): (Rule, nat) {
    var id := if r.id == 0 then next else r.id;
    (Rule(id, r.body, if r.created == "" then now else r.created), if r.id == 0 then next + 1 else Max(next, r.id + 1))
  }

  method SaveRules(file: Option<Store>, rules: seq<Rule>, now: string) returns (out: seq<Rule>, saved: Store)
    ensures (out, saved.nextId) == Assign(rules, Load(file).nextId, now) && saved.rules == out
  {
    hide Assign;
    var next := Load(file).nextId;
    out := [];
    AssignWhole(rules, next, now);
    for i := 0 to |rules|
      invariant Assign(rules, Load(file).nextId, now) == Onto(out, Assign(rules[i..], next, now))
    {
      var r := rules[i];
      AssignStep(rules, i, next, now, out);
      var id := r.id;
      if id == 0 {
        id := next;
        next := next + 1;
      } else {
        next := Max(next, id + 1);
      }
      r := Rule(id, r.body, if r.created == "" then now else r.created);
      out := out + [r];
    }
    AssignEnd(rules, next, now, out);
    saved := Store(next, out);
  }

  function Onto(out: seq<Rule>, rest: (seq<Rule>, nat)): (seq<Rule>, nat) {
    (out + rest.0, rest.1)
  }

  lemma AssignWhole(rules: seq<Rule>, next: nat, now: string)
    ensures Assign(rules, next, now) == Onto([], Assign(rules[0..], next, now))
  {
    assert rules[0..] == rules;
    assert [] + Assign(rules, next, now).0 == Assign(rules, next, now).0;
  }

  lemma AssignEnd(rules: seq<Rule>, next: nat, now: string, out: seq<Rule>)
    ensures Onto(out, Assign(rules[|rules|..], next, now)) == (out, next)
  {
    assert rules[|rules|..] == [] && out + [] == out;
  }

  lemma AssignStep(rules: seq<Rule>, i: nat, next: nat, now: string, out: seq<Rule>)
    requires i < |rules|
    ensures var (r, next') := Stored(rules[i], next, now);
            Onto(out, Assign(rules[i..], next, now)) == Onto(out + [r], Assign(rules[i + 1..], next', now))
  {
    var (r, next') := Stored(rules[i], next, now);
    assert rules[i..][1..] == rules[i + 1..];
    assert out + ([r] + Assign(rules[i + 1..], next', now).0) == (out + [r]) + Assign(rules[i + 1..], next', now).0;
  }

  // ---- runs --------------------------------------------------------------------------

  ghost predicate HasId(rules: seq<Rule>, id: nat) {
    exists i :: 0 <= i < |rules| && rules[i].id == id
  }

  /** A list an editor may send: known rules edited, moved or left out, each at most
      once, and new ones, whose id is 0. */
  ghost predicate Edits(rules: seq<Rule>, store: Store) {
    && (forall i :: 0 <= i < |rules| && rules[i].id != 0 ==> HasId(store.rules, rules[i].id))
    && (forall i, j :: 0 <= i < j < |rules| && rules[i].id != 0 ==> rules[i].id != rules[j].id)
  }

  ghost predicate Distinct(rules: seq<Rule>) {
    forall i, j :: 0 <= i < j < |rules| ==> rules[i].id != rules[j].id
  }

  ghost predicate Below(rules: seq<Rule>, next: nat) {
    forall i :: 0 <= i < |rules| ==> 0 < rules[i].id < next
  }

  ghost predicate Good(store: Store) {
    Distinct(store.rules) && Below(store.rules, store.nextId) && store.nextId >= 1
  }

  /** How many of the rules are new. */
  function NewCount(rules: seq<Rule>): nat {
    if rules == [] then 0 else (if rules[0].id == 0 then 1 else 0) + NewCount(rules[1..])
  }

  /** The store after one save of `rules`. */
  function Saved(store: Store, rules: seq<Rule>, now: string): Store {
    var (out, next) := Assign(rules, store.nextId, now);
    Store(next, out)
  }

  lemma {:induction false} MaxIdBelow(rules: seq<Rule>, next: nat)
    requires Below(rules, next) && next >= 1
    ensures MaxId(rules) < next
  {
    if rules != [] {
      assert rules[0].id < next;
      assert forall i :: 0 <= i < |rules[1..]| ==> rules[1..][i] == rules[i + 1];
      MaxIdBelow(rules[1..], next);
    }
  }

  /** Loading a good store gives it back. */
  lemma LoadSaved(store: Store)
    requires Good(store)
    ensures Load(Some(store)) == store
  {
    MaxIdBelow(store.rules, store.nextId);
  }

  /** Old rules keep their id; the new ones get the next ids in order. */
  lemma {:induction false} AssignIds(rules: seq<Rule>, next: nat, now: string)
    requires forall i :: 0 <= i < |rules| ==> rules[i].id < next
    ensures var (out, last) := Assign(rules, next, now);
            && |out| == |rules| && last == next + NewCount(rules)
            && (forall i :: 0 <= i < |rules| ==>
               if rules[i].id != 0 then out[i].id == rules[i].id else next <= out[i].id < last)
            && (forall i, j :: 0 <= i < j < |rules| && rules[i].id == 0 && rules[j].id == 0 ==> out[i].id < out[j].id)
  {
    if rules != [] {
      var (r, next') := Stored(rules[0], next, now);
      forall i | 0 <= i < |rules[1..]| ensures rules[1..][i].id < next' { assert rules[1..][i] == rules[i + 1]; }
      AssignIds(rules[1..], next', now);
      var (rest, last) := Assign(rules[1..], next', now);
      var out := [r] + rest;
      forall i, j | 0 <= i < j < |rules| && rules[i].id == 0 && rules[j].id == 0 ensures out[i].id < out[j].id {
        assert rules[1..][j - 1].id == 0;
        if i > 0 { assert rules[1..][i - 1].id == 0; }
      }
    }
  }

  /** One save: the store stays good, and a new rule's id is one no rule had before. */
  lemma SaveGood(store: Store, rules: seq<Rule>, now: string)
    requires Good(store) && Edits(rules, store)
    ensures Good(Saved(store, rules, now)) && Saved(store, rules, now).nextId == store.nextId + NewCount(rules)
    ensures |Saved(store, rules, now).rules| == |rules|
    ensures forall i :: 0 <= i < |rules| ==>
              if rules[i].id != 0 then Saved(store, rules, now).rules[i].id == rules[i].id
              else Saved(store, rules, now).rules[i].id >= store.nextId
  {
    forall i | 0 <= i < |rules| ensures rules[i].id < store.nextId {
      if rules[i].id != 0 { var k :| 0 <= k < |store.rules| && store.rules[k].id == rules[i].id; }
    }
    AssignIds(rules, store.nextId, now);
  }

  /** A run of saves from an empty directory: the stores it goes through. */
  ghost predicate IsRun(stores: seq<Store>, edits: seq<seq<Rule>>, nows: seq<string>) {
    && |stores| == |edits| + 1 && |nows| == |edits|
    && stores[0] == Load(None)
    && forall i :: 0 <= i < |edits| ==>
         Edits(edits[i], stores[i]) && stores[i + 1] == Load(Some(Saved(stores[i], edits[i], nows[i])))
  }

  /** Every store of a run is good, and its next id lies above every id of every earlier store. */
  lemma {:induction false} RunGood(stores: seq<Store>, edits: seq<seq<Rule>>, nows: seq<string>, i: nat)
    requires IsRun(stores, edits, nows) && i < |stores|
    ensures Good(stores[i])
    ensures forall j, id: nat :: 0 <= j <= i && HasId(stores[j].rules, id) ==> id < stores[i].nextId
    ensures i > 0 ==> stores[i] == Saved(stores[i - 1], edits[i - 1], nows[i - 1])
  {
    if i > 0 {
      RunGood(stores, edits, nows, i - 1);
      SaveGood(stores[i - 1], edits[i - 1], nows[i - 1]);
      LoadSaved(Saved(stores[i - 1], edits[i - 1], nows[i - 1]));
    }
  }

  /** No new rule gets an id that any rule ever had, a deleted one included. */
  lemma NeverReused(stores: seq<Store>, edits: seq<seq<Rule>>, nows: seq<string>, i: nat, k: nat, j: nat)
    requires IsRun(stores, edits, nows) && j <= i < |edits| && k < |edits[i]| && edits[i][k].id == 0
    ensures k < |stores[i + 1].rules| && !HasId(stores[j].rules, stores[i + 1].rules[k].id)
  {
    RunGood(stores, edits, nows, i);
    RunGood(stores, edits, nows, i + 1);
    SaveGood(stores[i], edits[i], nows[i]);
  }

  function AddedBefore(edits: seq<seq<Rule>>, i: nat): nat
    requires i <= |edits|
  {
    if i == 0 then 0 else AddedBefore(edits, i - 1) + NewCount(edits[i - 1])
  }

  /** The next id only counts the rules ever added, so 32 bits hold it as long as
      they hold that count. */
  lemma {:induction false} NextIdCounts(stores: seq<Store>, edits: seq<seq<Rule>>, nows: seq<string>, i: nat)
    requires IsRun(stores, edits, nows) && i < |stores|
    ensures stores[i].nextId == 1 + AddedBefore(edits, i)
  {
    if i > 0 {
      NextIdCounts(stores, edits, nows, i - 1);
      RunGood(stores, edits, nows, i - 1);
      RunGood(stores, edits, nows, i);
      SaveGood(stores[i - 1], edits[i - 1], nows[i - 1]);
    }
  }

  // ---- what is stored ---------------------------------------------------------------------

  /** Loading takes the rules as they are; the next id is no lower than the stored one, and above
      every rule's. */
  lemma LoadMeans(file: Option<Store>)
    ensures Load(file).rules == if file.Some? then file.value.rules else []
    ensures Load(file).nextId >= 1 && (file.Some? ==> Load(file).nextId >= file.value.nextId)
    ensures file.Some? ==> forall i :: 0 <= i < |file.value.rules| ==> file.value.rules[i].id < Load(file).nextId
    ensures file == None ==> Load(file).nextId == 1
  {
    if file.Some? { MaxIdTop(file.value.rules); }
  }

  lemma {:induction false} MaxIdTop(rules: seq<Rule>)
    ensures forall i :: 0 <= i < |rules| ==> rules[i].id <= MaxId(rules)
  {
    if rules != [] { MaxIdTop(rules[1..]); }
  }

  /** Whatever is saved, each rule keeps its place, its text, and the id and the date it had. */
  lemma {:induction false} StoredKeeps(rules: seq<Rule>, next: nat, now: string)
    ensures var out := Assign(rules, next, now).0;
            && |out| == |rules|
            && forall i :: 0 <= i < |rules| ==>
                 && out[i].body == rules[i].body
                 && out[i].created == (if rules[i].created == "" then now else rules[i].created)
                 && (rules[i].id != 0 ==> out[i].id == rules[i].id)
  {
    if rules != [] { StoredKeeps(rules[1..], Stored(rules[0], next, now).1, now); }
  }
}
