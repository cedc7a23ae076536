/**
 * How a tree of signature keys changes: rows are inserted below existing entries, keys are
 * widened, pages are split. Whatever the order, every key covers the rows below it.
 */
module SignatureRuns {
  import opened Signatures
  import opened SignatureTree

  // ----- Pages below the root -----

  predicate OnPath(es: seq<Entry>, path: seq<nat>)
    decreases path
  {
    path == [] || (path[0] < |es| && es[path[0]].child.Page? && OnPath(es[path[0]].child.entries, path[1..]))
  }

  function PageAt(es: seq<Entry>, path: seq<nat>): seq<Entry>
    requires OnPath(es, path)
    decreases path
  {
    if path == [] then es else PageAt(es[path[0]].child.entries, path[1..])
  }

  /** Nothing changes but the page at the end of the path. */
  ghost predicate ChangedAt(es: seq<Entry>, path: seq<nat>, after: seq<Entry>)
    requires OnPath(es, path)
    decreases path
  {
    path != [] ==>
      var i := path[0];
      && |after| == |es| && after[i].child.Page? && after == es[i := Entry(es[i].key, after[i].child)]
      && ChangedAt(es[i].child.entries, path[1..], after[i].child.entries)
  }

  lemma {:induction false} ChangedOnPath(es: seq<Entry>, path: seq<nat>, after: seq<Entry>)
    requires OnPath(es, path) && ChangedAt(es, path, after)
    ensures OnPath(after, path)
    decreases path
  {
    if path != [] { ChangedOnPath(es[path[0]].child.entries, path[1..], after[path[0]].child.entries); }
  }

  /** The row is added to the page at the end of the path, and every key on the way takes its bits in. */
  ghost predicate InsertedAt(es: seq<Entry>, path: seq<nat>, n: Entry, after: seq<Entry>, bits: nat)
    requires OnPath(es, path)
    decreases path
  {
    if path == [] then after == es + [n]
    else
      var i := path[0];
      && |after| == |es| && after[i].child.Page? && after == es[i := after[i]]
      && JoinOf(after[i].key, es[i].key, n.key, bits)
      && InsertedAt(es[i].child.entries, path[1..], n, after[i].child.entries, bits)
  }

  // ----- Steps -----

  /**
   * A row is inserted; a key takes in one that is on its way down; an entry gives way to the two
   * halves of its page; an entry gets the union of its page as its key, as after an interrupted
   * split; or the root page is split.
   */
  datatype Step =
    | Insert(path: seq<nat>, n: Entry)
    | Widening(path: seq<nat>, i: nat, more: Key)
    | Split(path: seq<nat>, i: nat)
    | Refit(path: seq<nat>, i: nat)
    | SplitRoot

  /** What a step makes of the page at the end of its path. */
  ghost predicate Turns(p: seq<Entry>, step: Step, q: seq<Entry>, bits: nat)
    requires !step.Insert? && !step.SplitRoot?
  {
    && step.i < |p| && p[step.i].child.Page?
    && match step
       case Widening(_, i, more) =>
         |q| == |p| && q == p[i := Entry(q[i].key, p[i].child)] && JoinOf(q[i].key, p[i].key, more, bits)
       case Split(_, i) =>
         && |q| == |p| + 1 && q == p[..i] + [q[i], q[i + 1]] + p[i + 1..]
         && SplitOf(p[i].child.entries, q[i], q[i + 1], bits)
       case Refit(_, i) =>
         |q| == |p| && q == p[i := Entry(q[i].key, p[i].child)] && UnionOf(q[i].key, p[i].child.entries, bits)
  }

  ghost predicate Leads(es: seq<Entry>, step: Step, after: seq<Entry>, table: Table, bits: nat) {
    match step
    case Insert(path, n) =>
      OnPath(es, path) && n.child.Row? && WellKeyed(n, table, bits) && InsertedAt(es, path, n, after, bits)
    case SplitRoot => |after| == 2 && SplitOf(es, after[0], after[1], bits)
    case _ =>
      && OnPath(es, step.path) && ChangedAt(es, step.path, after)
      && (ChangedOnPath(es, step.path, after); Turns(PageAt(es, step.path), step, PageAt(after, step.path), bits))
  }

  // ----- What every step keeps -----

  ghost predicate HasRowIn(es: seq<Entry>, tid: nat) { exists i: nat :: i < |es| && HasRow(es[i], tid) }

  /** The rows of one page are those of another, and perhaps one more. */
  ghost predicate SameRows(es: seq<Entry>, after: seq<Entry>, more: set<nat>) {
    forall tid: nat :: HasRowIn(after, tid) <==> HasRowIn(es, tid) || tid in more
  }

  /** One entry of a page is replaced by another. */
  lemma EntryReplaced(es: seq<Entry>, i: nat, e: Entry, more: set<nat>, table: Table, bits: nat)
    requires i < |es| && AllWellKeyed(es, table, bits) && WellKeyed(e, table, bits)
    requires forall tid: nat :: HasRow(e, tid) <==> HasRow(es[i], tid) || tid in more
    ensures AllWellKeyed(es[i := e], table, bits) && SameRows(es, es[i := e], more)
  {
    var after := es[i := e];
    forall tid: nat ensures HasRowIn(after, tid) <==> HasRowIn(es, tid) || tid in more {
      if HasRowIn(es, tid) {
        var j: nat :| j < |es| && HasRow(es[j], tid);
        assert HasRow(after[j], tid);
      }
      if tid in more { assert HasRow(after[i], tid); }
      if HasRowIn(after, tid) {
        var j: nat :| j < |after| && HasRow(after[j], tid);
        assert j != i ==> HasRow(es[j], tid);
      }
    }
  }

  /** An insert keeps the tree well keyed, on the root page and on every page below. */
  lemma {:induction false} InsertKeeps(es: seq<Entry>, path: seq<nat>, n: Entry, after: seq<Entry>,
                                       table: Table, bits: nat)
    requires AllWellKeyed(es, table, bits) && WellKeyed(n, table, bits) && n.child.Row?
    requires OnPath(es, path) && InsertedAt(es, path, n, after, bits)
    ensures AllWellKeyed(after, table, bits) && SameRows(es, after, {n.child.tid})
    decreases path
  {
    var more := {n.child.tid};
    if path == [] {
      RowAppended(es, n);
    } else {
      var i := path[0];
      var was, e := es[i], after[i];
      InsertKeeps(was.child.entries, path[1..], n, e.child.entries, table, bits);
      BelowChanged(was, e, more);
      forall tid: nat | HasRow(e, tid) ensures CoversRow(e.key, table, bits, tid) {
        KeyCoversRows(if HasRow(was, tid) then was else n, table, bits, tid);
        JoinCovers(e.key, was.key, n.key, table, bits, tid);
      }
      EntryReplaced(es, i, e, more, table, bits);
    }
  }

  lemma RowAppended(es: seq<Entry>, n: Entry)
    requires n.child.Row?
    ensures SameRows(es, es + [n], {n.child.tid})
  {
    var after := es + [n];
    forall tid: nat ensures HasRowIn(after, tid) <==> HasRowIn(es, tid) || tid == n.child.tid {
      if HasRowIn(es, tid) {
        var j: nat :| j < |es| && HasRow(es[j], tid);
        assert HasRow(after[j], tid);
      }
      if tid == n.child.tid { assert HasRow(after[|es|], tid); }
    }
  }

  lemma BelowChanged(was: Entry, e: Entry, more: set<nat>)
    requires was.child.Page? && e.child.Page? && SameRows(was.child.entries, e.child.entries, more)
    ensures forall tid: nat :: HasRow(e, tid) <==> HasRow(was, tid) || tid in more
  {
    forall tid: nat ensures HasRow(e, tid) <==> HasRow(was, tid) || tid in more {
      assert HasRowIn(e.child.entries, tid) <==> HasRowIn(was.child.entries, tid) || tid in more;
    }
  }

  /** A page keeps its rows when one entry gives way to others with the same rows. */
  lemma OthersKeep(p: seq<Entry>, i: nat, others: seq<Entry>, table: Table, bits: nat)
    requires i < |p| && AllWellKeyed(p, table, bits) && AllWellKeyed(others, table, bits)
    requires forall tid: nat :: HasRowIn(others, tid) <==> HasRow(p[i], tid)
    ensures AllWellKeyed(p[..i] + others + p[i + 1..], table, bits)
    ensures SameRows(p, p[..i] + others + p[i + 1..], {})
  {
    var q := p[..i] + others + p[i + 1..];
    forall tid: nat ensures HasRowIn(q, tid) <==> HasRowIn(p, tid) {
      if HasRowIn(q, tid) {
        var j: nat :| j < |q| && HasRow(q[j], tid);
        if i <= j < i + |others| {
          assert q[j] == others[j - i];
          assert HasRowIn(others, tid);
          assert HasRow(p[i], tid);
        } else {
          var k := if j < i then j else j - |others| + 1;
          assert q[j] == p[k];
        }
      }
      if HasRowIn(p, tid) {
        var j: nat :| j < |p| && HasRow(p[j], tid);
        if j == i {
          assert HasRowIn(others, tid);
          var k: nat :| k < |others| && HasRow(others[k], tid);
          assert q[i + k] == others[k];
        } else {
          var k := if j < i then j else j - 1 + |others|;
          assert q[k] == p[j];
        }
      }
    }
  }

  /** The halves of a page have its rows and are well keyed. */
  lemma SplitKeeps(es: seq<Entry>, l: Entry, r: Entry, table: Table, bits: nat)
    requires AllWellKeyed(es, table, bits) && SplitOf(es, l, r, bits)
    ensures AllWellKeyed([l, r], table, bits) && SameRows(es, [l, r], {})
  {
    var ls, rs := l.child.entries, r.child.entries;
    forall e ensures e in es <==> e in ls || e in rs { assert e in es <==> e in multiset(ls) + multiset(rs); }
    forall i: nat | i < |ls| ensures WellKeyed(ls[i], table, bits) { assert ls[i] in es; }
    forall i: nat | i < |rs| ensures WellKeyed(rs[i], table, bits) { assert rs[i] in es; }
    UnionIsWellKeyed(l.key, ls, table, bits);
    UnionIsWellKeyed(r.key, rs, table, bits);
    forall tid: nat ensures HasRowIn([l, r], tid) <==> HasRowIn(es, tid) { HalvesHaveRows(es, l, r, tid); }
  }

  lemma HalvesHaveRows(es: seq<Entry>, l: Entry, r: Entry, tid: nat)
    requires l.child.Page? && r.child.Page?
    requires forall e :: e in es <==> e in l.child.entries || e in r.child.entries
    ensures HasRowIn([l, r], tid) <==> HasRowIn(es, tid)
  {
    var both := [l, r];
    assert HasRowIn(both, tid) <==> HasRow(l, tid) || HasRow(r, tid) by {
      assert both[0] == l && both[1] == r;
    }
    if HasRowIn(es, tid) {
      var i: nat :| i < |es| && HasRow(es[i], tid);
      assert es[i] in es;
      SomewhereOn(if es[i] in l.child.entries then l else r, es[i], tid);
    }
    if HasRow(l, tid) { FromPage(l, es, tid); }
    if HasRow(r, tid) { FromPage(r, es, tid); }
  }

  lemma SomewhereOn(page: Entry, e: Entry, tid: nat)
    requires page.child.Page? && e in page.child.entries && HasRow(e, tid)
    ensures HasRow(page, tid)
  {
    var k: nat :| k < |page.child.entries| && page.child.entries[k] == e;
  }

  lemma FromPage(page: Entry, es: seq<Entry>, tid: nat)
    requires page.child.Page? && HasRow(page, tid) && forall e | e in page.child.entries :: e in es
    ensures HasRowIn(es, tid)
  {
    var k: nat :| k < |page.child.entries| && HasRow(page.child.entries[k], tid);
    assert page.child.entries[k] in es;
    var i: nat :| i < |es| && es[i] == page.child.entries[k];
  }

  /** Steps other than inserts keep the page on which they happen. */
  lemma TurnKeeps(p: seq<Entry>, step: Step, q: seq<Entry>, table: Table, bits: nat)
    requires AllWellKeyed(p, table, bits) && !step.Insert? && !step.SplitRoot? && Turns(p, step, q, bits)
    ensures AllWellKeyed(q, table, bits) && SameRows(p, q, {})
  {
    var i := step.i;
    var was, e := p[i], q[i];
    if step.Split? {
      SplitKeeps(was.child.entries, e, q[i + 1], table, bits);
      forall tid: nat ensures HasRowIn([e, q[i + 1]], tid) <==> HasRow(was, tid) {
        assert HasRow(was, tid) <==> HasRowIn(was.child.entries, tid);
      }
      OthersKeep(p, i, [e, q[i + 1]], table, bits);
    } else {
      forall tid: nat ensures HasRow(e, tid) <==> HasRow(was, tid) {}
      if step.Refit? {
        UnionIsWellKeyed(e.key, was.child.entries, table, bits);
      } else {
        forall tid: nat | HasRow(e, tid) ensures CoversRow(e.key, table, bits, tid) {
          KeyCoversRows(was, table, bits, tid);
          JoinCovers(e.key, was.key, step.more, table, bits, tid);
        }
      }
      EntryReplaced(p, i, e, {}, table, bits);
    }
  }

  /** What keeps a page, however deep, keeps the tree. */
  lemma {:induction false} ChangeKeeps(es: seq<Entry>, path: seq<nat>, after: seq<Entry>, table: Table, bits: nat)
    requires AllWellKeyed(es, table, bits) && OnPath(es, path) && ChangedAt(es, path, after) && OnPath(after, path)
    requires AllWellKeyed(PageAt(es, path), table, bits) ==>
               AllWellKeyed(PageAt(after, path), table, bits) && SameRows(PageAt(es, path), PageAt(after, path), {})
    ensures AllWellKeyed(after, table, bits) && SameRows(es, after, {})
    decreases path
  {
    if path != [] {
      var i := path[0];
      var was, e := es[i], after[i];
      ChangeKeeps(was.child.entries, path[1..], e.child.entries, table, bits);
      BelowChanged(was, e, {});
      forall tid: nat | HasRow(e, tid) ensures CoversRow(e.key, table, bits, tid) {
        KeyCoversRows(was, table, bits, tid);
      }
      EntryReplaced(es, i, e, {}, table, bits);
    }
  }

  /** The row that a step adds. */
  ghost function Added(step: Step): set<nat> { if step.Insert? && step.n.child.Row? then {step.n.child.tid} else {} }

  /** Every step keeps the tree well keyed and adds just the row that it inserts. */
  lemma StepKeeps(es: seq<Entry>, step: Step, after: seq<Entry>, table: Table, bits: nat)
    requires AllWellKeyed(es, table, bits) && Leads(es, step, after, table, bits)
    ensures AllWellKeyed(after, table, bits) && SameRows(es, after, Added(step))
  {
    match step
    case Insert(path, n) => InsertKeeps(es, path, n, after, table, bits);
    case SplitRoot =>
      SplitKeeps(es, after[0], after[1], table, bits);
      assert after == [after[0], after[1]];
    case _ =>
      var path := step.path;
      ChangedOnPath(es, path, after);
      if AllWellKeyed(PageAt(es, path), table, bits) {
        TurnKeeps(PageAt(es, path), step, PageAt(after, path), table, bits);
      }
      ChangeKeeps(es, path, after, table, bits);
  }

  // ----- Runs -----

  /** The root pages of an index that is empty at first, step by step. */
  ghost predicate IsRun(states: seq<seq<Entry>>, steps: seq<Step>, table: Table, bits: nat) {
    && |states| == |steps| + 1 && states[0] == []
    && forall i: nat | i < |steps| :: Leads(states[i], steps[i], states[i + 1], table, bits)
  }

  ghost predicate InsertedBefore(steps: seq<Step>, n: nat, tid: nat) {
    exists i: nat :: i < n && i < |steps| && tid in Added(steps[i])
  }

  /** After any number of steps, every key covers the rows below it, and the rows are those inserted. */
  lemma {:induction false} RunWellKeyed(states: seq<seq<Entry>>, steps: seq<Step>, n: nat, table: Table, bits: nat)
    requires IsRun(states, steps, table, bits) && n < |states|
    ensures AllWellKeyed(states[n], table, bits)
    ensures forall tid: nat :: HasRowIn(states[n], tid) <==> InsertedBefore(steps, n, tid)
  {
    if n > 0 {
      RunWellKeyed(states, steps, n - 1, table, bits);
      assert Leads(states[n - 1], steps[n - 1], states[n - 1 + 1], table, bits);
      StepKeeps(states[n - 1], steps[n - 1], states[n], table, bits);
      forall tid: nat ensures HasRowIn(states[n], tid) <==> InsertedBefore(steps, n, tid) {
        assert HasRowIn(states[n], tid) <==> HasRowIn(states[n - 1], tid) || tid in Added(steps[n - 1]);
        if InsertedBefore(steps, n - 1, tid) {
          var i: nat :| i < n - 1 && i < |steps| && tid in Added(steps[i]);
        }
      }
    }
  }

  /** A search from the root page. */
  method SearchRoot(es: seq<Entry>, passes: (Key, bool) -> bool, ghost table: Table, bits: nat, ghost wanted: set<nat>)
    returns (found: seq<nat>)
    requires AllWellKeyed(es, table, bits) && NeverRejects(passes, table, bits, wanted)
    ensures forall tid: nat | HasRowIn(es, tid) && tid in wanted :: tid in found
    ensures forall tid: nat | tid in found :: HasRowIn(es, tid)
  {
    found := [];
    for n := 0 to |es|
      invariant forall i: nat, tid: nat | i < n && HasRow(es[i], tid) && tid in wanted :: tid in found
      invariant forall tid: nat | tid in found :: HasRowIn(es, tid)
    {
      var more := Search(es[n], passes, table, bits, wanted);
      found := found + more;
    }
  }

  /** After any run, a search finds every wanted row that was inserted, and no row that was not. */
  method SearchAfterRun(ghost states: seq<seq<Entry>>, ghost steps: seq<Step>, es: seq<Entry>,
                        passes: (Key, bool) -> bool, ghost table: Table, bits: nat, ghost wanted: set<nat>)
    returns (found: seq<nat>)
    requires IsRun(states, steps, table, bits) && es == states[|steps|]
    requires NeverRejects(passes, table, bits, wanted)
    ensures forall tid: nat | InsertedBefore(steps, |steps|, tid) && tid in wanted :: tid in found
    ensures forall tid: nat | tid in found :: InsertedBefore(steps, |steps|, tid)
  {
    RunWellKeyed(states, steps, |steps|, table, bits);
    found := SearchRoot(es, passes, table, bits, wanted);
  }

  // ----- The steps, carried out -----

  /** The descent of an insert: keys are widened on the way down. */
  method InsertAt(es: seq<Entry>, path: seq<nat>, n: Entry, bits: nat, ghost table: Table) returns (after: seq<Entry>)
    requires AllWellKeyed(es, table, bits) && OnPath(es, path) && n.child.Row? && WellKeyed(n, table, bits)
    ensures Leads(es, Insert(path, n), after, table, bits)
    decreases path
  {
    if path == [] { return es + [n]; }
    var i := path[0];
    assert WellKeyed(es[i], table, bits);
    var k := Widen(es[i].key, n.key, bits);
    var below := InsertAt(es[i].child.entries, path[1..], n, bits, table);
    after := es[i := Entry(k, Page(below))];
  }

  method ReplaceAt(es: seq<Entry>, path: seq<nat>, q: seq<Entry>) returns (after: seq<Entry>)
    requires OnPath(es, path)
    ensures ChangedAt(es, path, after) && OnPath(after, path) && PageAt(after, path) == q
    decreases path
  {
    if path == [] { return q; }
    var i := path[0];
    var below := ReplaceAt(es[i].child.entries, path[1..], q);
    after := es[i := Entry(es[i].key, Page(below))];
  }

  lemma {:induction false} PageWellKeyed(es: seq<Entry>, path: seq<nat>, table: Table, bits: nat)
    requires AllWellKeyed(es, table, bits) && OnPath(es, path)
    ensures AllWellKeyed(PageAt(es, path), table, bits)
    decreases path
  {
    if path != [] {
      assert WellKeyed(es[path[0]], table, bits);
      PageWellKeyed(es[path[0]].child.entries, path[1..], table, bits);
    }
  }

  /** A page below the root is split: two entries take the place of one. */
  method SplitAt(es: seq<Entry>, path: seq<nat>, i: nat, bits: nat, wish: (nat, nat) -> real, ghost table: Table)
    returns (after: seq<Entry>)
    requires AllWellKeyed(es, table, bits) && OnPath(es, path)
    requires i < |PageAt(es, path)| && PageAt(es, path)[i].child.Page? && |PageAt(es, path)[i].child.entries| >= 2
    ensures Leads(es, Split(path, i), after, table, bits)
  {
    PageWellKeyed(es, path, table, bits);
    var p := PageAt(es, path);
    assert WellKeyed(p[i], table, bits);
    var l, r := SplitPage(p[i].child.entries, bits, wish, table);
    after := ReplaceAt(es, path, p[..i] + [l, r] + p[i + 1..]);
  }
}
