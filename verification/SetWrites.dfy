/** Writing a set of files and putting it back (confsave.rs), as folds over the requests:
    exactly when everything is in place, and exactly when everything is back. */
module SetWrites {
  import opened Options
  import opened ConfRequest

  /** The tree once the first `n` requests are written, those that are marked. */
  function Promote(tree: Tree, reqs: seq<Request>, changed: seq<bool>, n: nat): Tree
    requires n <= |reqs| == |changed|
  {
    if n == 0 then tree
    else
      var before := Promote(tree, reqs, changed, n - 1);
      if changed[n - 1] then before[reqs[n - 1].entry.path := reqs[n - 1].newText] else before
  }

  /** A file written by a set save: which, what it held, whether it was there. */
  datatype Written = Written(index: nat, prev: Option<string>, existed: bool)

  /** The writes of the first `n` requests. */
  function Writes(tree: Tree, reqs: seq<Request>, changed: seq<bool>, n: nat): (written: seq<Written>)
    requires n <= |reqs| == |changed|
    ensures forall k :: 0 <= k < |written| ==>
              && written[k].index < n && changed[written[k].index]
              && (written[k].existed <==> written[k].prev.Some?)
    ensures forall i :: 0 <= i < n ==> (HasWrite(i, written) <==> changed[i])
  {
    if n == 0 then []
    else
      var before := Writes(tree, reqs, changed, n - 1);
      var prev := At(Promote(tree, reqs, changed, n - 1), reqs[n - 1].entry.path);
      HasWriteGrows(before, Written(n - 1, prev, prev.Some?));
      if changed[n - 1] then before + [Written(n - 1, prev, prev.Some?)] else before
  }

  predicate HasWrite(i: nat, written: seq<Written>) {
    exists k :: 0 <= k < |written| && written[k].index == i
  }

  lemma HasWriteGrows(written: seq<Written>, wr: Written)
    ensures forall i :: HasWrite(i, written + [wr]) <==> HasWrite(i, written) || i == wr.index
  {
    var more := written + [wr];
    assert more[|written|].index == wr.index;
    forall i | HasWrite(i, written) ensures HasWrite(i, more) {
      var k :| 0 <= k < |written| && written[k].index == i;
      assert more[k].index == i;
    }
  }

  /** The tree once these writes are put back, in their order. */
  function Rollback(tree: Tree, reqs: seq<Request>, written: seq<Written>): Tree
    requires forall k :: 0 <= k < |written| ==> written[k].index < |reqs|
  {
    if written == [] then tree
    else
      var wr := written[|written| - 1];
      Put(Rollback(tree, reqs, written[..|written| - 1]), reqs[wr.index].entry.path, wr.prev)
  }

  /** The last of the first `n` requests that writes the file `p`. */
  function LastWrite(reqs: seq<Request>, changed: seq<bool>, n: nat, p: string): (at: Option<nat>)
    requires n <= |reqs| == |changed|
    ensures at.Some? ==> at.value < n && changed[at.value] && reqs[at.value].entry.path == p
    ensures forall i :: 0 <= i < n && changed[i] && reqs[i].entry.path == p ==> at.Some? && i <= at.value
  {
    if n == 0 then None
    else if changed[n - 1] && reqs[n - 1].entry.path == p then Some(n - 1)
    else LastWrite(reqs, changed, n - 1, p)
  }

  lemma LastWriteStep(reqs: seq<Request>, changed: seq<bool>, n: nat, p: string)
    requires n <= |reqs| == |changed|
    ensures LastWrite(reqs, changed, n, p) ==
            if n == 0 then None
            else if changed[n - 1] && reqs[n - 1].entry.path == p then Some(n - 1)
            else LastWrite(reqs, changed, n - 1, p)
  {
  }

  lemma {:induction false} PromotedAt(tree: Tree, reqs: seq<Request>, changed: seq<bool>, n: nat, p: string)
    requires n <= |reqs| == |changed|
    ensures At(Promote(tree, reqs, changed, n), p) ==
            match LastWrite(reqs, changed, n, p) case Some(i) => Some(reqs[i].newText) case None => At(tree, p)
  {
    if n > 0 { PromotedAt(tree, reqs, changed, n - 1, p); }
  }

  lemma {:induction false} PutBackAt(mid: Tree, tree: Tree, reqs: seq<Request>, changed: seq<bool>, n: nat, p: string)
    requires n <= |reqs| == |changed|
    ensures At(Rollback(mid, reqs, Writes(tree, reqs, changed, n)), p) ==
            match LastWrite(reqs, changed, n, p)
            case Some(i) => At(Promote(tree, reqs, changed, i), p)
            case None => At(mid, p)
  {
    hide At, Put, Promote, Writes, Rollback, HasWrite, LastWrite;
    LastWriteStep(reqs, changed, n, p);
    if n == 0 {
      NoWrites(mid, tree, reqs, changed);
    } else {
      PutBackAt(mid, tree, reqs, changed, n - 1, p);
      WritesStep(tree, reqs, changed, n - 1);
      var before, path := Writes(tree, reqs, changed, n - 1), reqs[n - 1].entry.path;
      if changed[n - 1] {
        var prev := At(Promote(tree, reqs, changed, n - 1), path);
        RollbackStep(mid, reqs, before, Written(n - 1, prev, prev.Some?));
        PutAt(Rollback(mid, reqs, before), path, prev, p);
      }
    }
  }

  lemma NoWrites(mid: Tree, tree: Tree, reqs: seq<Request>, changed: seq<bool>)
    requires |changed| == |reqs|
    ensures Writes(tree, reqs, changed, 0) == [] && Promote(tree, reqs, changed, 0) == tree
            && Rollback(mid, reqs, []) == mid
  {
  }

  /** One request more. */
  lemma WritesStep(tree: Tree, reqs: seq<Request>, changed: seq<bool>, i: nat)
    requires i < |reqs| == |changed|
    ensures var before, prev := Promote(tree, reqs, changed, i),
            At(Promote(tree, reqs, changed, i), reqs[i].entry.path);
            if changed[i] then
              && Promote(tree, reqs, changed, i + 1) == before[reqs[i].entry.path := reqs[i].newText]
              && Writes(tree, reqs, changed, i + 1) == Writes(tree, reqs, changed, i) + [Written(i, prev, prev.Some?)]
            else
              && Promote(tree, reqs, changed, i + 1) == before
              && Writes(tree, reqs, changed, i + 1) == Writes(tree, reqs, changed, i)
  {
    hide HasWrite;
  }

  lemma RollbackStep(mid: Tree, reqs: seq<Request>, written: seq<Written>, wr: Written)
    requires wr.index < |reqs| && forall k :: 0 <= k < |written| ==> written[k].index < |reqs|
    ensures Rollback(mid, reqs, written + [wr]) == Put(Rollback(mid, reqs, written), reqs[wr.index].entry.path, wr.prev)
  {
    hide Put;
    assert (written + [wr])[..|written|] == written;
  }

  lemma PutAt(tree: Tree, path: string, text: Option<string>, p: string)
    ensures At(Put(tree, path, text), p) == if p == path then text else At(tree, p)
  {
  }

  /** Putting a set back gives the tree it found exactly when no file was written twice. */
  lemma PutBackExact(tree: Tree, reqs: seq<Request>)
    ensures var changed := Marked(reqs, tree);
            Rollback(Promote(tree, reqs, changed, |reqs|), reqs, Writes(tree, reqs, changed, |reqs|)) == tree
            <==> DistinctWrites(reqs, changed)
  {
    hide Promote, Rollback, Writes, At;
    var changed := Marked(reqs, tree);
    var after := Promote(tree, reqs, changed, |reqs|);
    var back := Rollback(after, reqs, Writes(tree, reqs, changed, |reqs|));
    if DistinctWrites(reqs, changed) {
      forall p ensures At(back, p) == At(tree, p) { BackOnce(tree, reqs, changed, p); }
      SameEverywhere(back, tree);
    } else {
      var i, j :| 0 <= i < j < |reqs| && changed[i] && changed[j] && reqs[i].entry.path == reqs[j].entry.path;
      BackTwice(tree, reqs, changed, i, j);
    }
  }

  lemma BackOnce(tree: Tree, reqs: seq<Request>, changed: seq<bool>, p: string)
    requires changed == Marked(reqs, tree) && DistinctWrites(reqs, changed)
    ensures At(Rollback(Promote(tree, reqs, changed, |reqs|), reqs, Writes(tree, reqs, changed, |reqs|)), p)
            == At(tree, p)
  {
    hide Promote, Rollback, Writes, At, Differs;
    PutBackAt(Promote(tree, reqs, changed, |reqs|), tree, reqs, changed, |reqs|, p);
    PromotedAt(tree, reqs, changed, |reqs|, p);
    var last := LastWrite(reqs, changed, |reqs|, p);
    if last.Some? { PromotedAt(tree, reqs, changed, last.value, p); }
  }

  /** A file written twice is left with the text of its last write but one. */
  lemma BackTwice(tree: Tree, reqs: seq<Request>, changed: seq<bool>, i: nat, j: nat)
    requires changed == Marked(reqs, tree) && i < j < |reqs| && changed[i] && changed[j]
    requires reqs[i].entry.path == reqs[j].entry.path
    ensures var p := reqs[i].entry.path;
            At(Rollback(Promote(tree, reqs, changed, |reqs|), reqs, Writes(tree, reqs, changed, |reqs|)), p)
            != At(tree, p)
  {
    hide Promote, Rollback, Writes;
    var p := reqs[i].entry.path;
    PutBackAt(Promote(tree, reqs, changed, |reqs|), tree, reqs, changed, |reqs|, p);
    var last := LastWrite(reqs, changed, |reqs|, p);
    PromotedAt(tree, reqs, changed, last.value, p);
    var other := LastWrite(reqs, changed, last.value, p);
    assert other.Some? && Differs(reqs[other.value], tree);
  }

  /** Every requested text is in place. */
  ghost predicate AllInPlace(reqs: seq<Request>, tree: Tree) {
    forall i :: 0 <= i < |reqs| ==> At(tree, reqs[i].entry.path) == Some(reqs[i].newText)
  }

  /** Files the set does not name are as they were. */
  ghost predicate OthersKept(reqs: seq<Request>, before: Tree, after: Tree) {
    forall p :: (forall i :: 0 <= i < |reqs| ==> reqs[i].entry.path != p) ==> At(after, p) == At(before, p)
  }

  /** Promoting puts every requested text in place exactly when requests of one file ask for one text. */
  lemma PromotedInPlace(tree: Tree, reqs: seq<Request>)
    ensures var after := Promote(tree, reqs, Marked(reqs, tree), |reqs|);
            && (AllInPlace(reqs, after) <==>
                forall i, j :: 0 <= i < j < |reqs| && reqs[i].entry.path == reqs[j].entry.path ==>
                    reqs[i].newText == reqs[j].newText)
            && OthersKept(reqs, tree, after)
  {
    hide Promote, At;
    var changed := Marked(reqs, tree);
    var after := Promote(tree, reqs, changed, |reqs|);
    forall p ensures (forall i :: 0 <= i < |reqs| ==> reqs[i].entry.path != p) ==> At(after, p) == At(tree, p) {
      PromotedAt(tree, reqs, changed, |reqs|, p);
    }
    if forall i, j :: 0 <= i < j < |reqs| && reqs[i].entry.path == reqs[j].entry.path ==>
        reqs[i].newText == reqs[j].newText {
      forall i | 0 <= i < |reqs| ensures At(after, reqs[i].entry.path) == Some(reqs[i].newText) {
        PromotedAt(tree, reqs, changed, |reqs|, reqs[i].entry.path);
      }
    }
  }

  /** A file no request before wrote is as it was. */
  lemma UnwrittenYet(tree: Tree, reqs: seq<Request>, changed: seq<bool>, i: nat)
    requires i < |reqs| == |changed| && DistinctPaths(reqs)
    ensures At(Promote(tree, reqs, changed, i), reqs[i].entry.path) == At(tree, reqs[i].entry.path)
  {
    hide Promote, At;
    PromotedAt(tree, reqs, changed, i, reqs[i].entry.path);
  }
}
