/** The recursive prune of the housekeeping daemon on a finite directory tree. Input and output
    errors are part of the tree, so a statement about every tree is one about every pattern of
    failures. */
module GcPrune {
  import opened Text

  /** `age` is the whole seconds since the last change, `None` when that time lies in the future
      or is unknown. A symbolic link is a leaf like a file; its target does not occur. */
  datatype Node =
    | Leaf(age: Option<nat>, undeletable: bool)
    | Other
    | Dir(unreadable: bool, unremovable: bool, entries: seq<Entry>)

  /** `broken`: listing the entry or reading its metadata fails. */
  datatype Entry = Entry(name: string, broken: bool, node: Node)

  predicate Fresh(age: Option<nat>, maxAge: nat) {
    age.None? || age.value <= maxAge
  }

  // ---- what the recursion computes

  /** The entries left, the budget left, whether an error ended the listing, and the value of
      `has_remaining_entries`. */
  datatype Listing = Listing(kept: seq<Entry>, budget: nat, failed: bool, remaining: bool)

  /** What is left of one directory: `None` when it was removed. */
  datatype Pruned = Pruned(node: Option<Node>, budget: nat, failed: bool)

  function PruneEntry(e: Entry, maxAge: nat, budget: nat): (r: Pruned)
    decreases e, 0
  {
    match e.node
    case Dir(_, _, _) => PruneDir(e.node, maxAge, true, budget)
    case Leaf(age, undeletable) =>
      if Fresh(age, maxAge) || undeletable then Pruned(Some(e.node), budget, false) else Pruned(None, budget, false)
    case Other => Pruned(Some(e.node), budget, false)
  }

  function PruneEntries(es: seq<Entry>, maxAge: nat, budget: nat): (r: Listing)
    decreases es, 0
  {
    if es == [] then Listing([], budget, false, false)
    else if budget == 0 then Listing(es, 0, false, false)
    else if es[0].broken then Listing(es, budget - 1, true, false)
    else
      var first := PruneEntry(es[0], maxAge, budget - 1);
      var rest := PruneEntries(es[1..], maxAge, first.budget);
      var left := if first.node.None? then [] else [es[0].(node := first.node.value)];
      // Other file types never set the flag.
      var counts := first.failed || (first.node.Some? && !es[0].node.Other?);
      Listing(left + rest.kept, rest.budget, rest.failed, counts || rest.remaining)
  }

  function PruneDir(d: Node, maxAge: nat, nested: bool, budget: nat): (r: Pruned)
    requires d.Dir?
    decreases d, 1
  {
    if budget == 0 then Pruned(Some(d), 0, false)
    else if d.unreadable then Pruned(Some(d), budget, true)
    else
      var listing := PruneEntries(d.entries, maxAge, budget);
      var left := d.(entries := listing.kept);
      if listing.failed then Pruned(Some(left), listing.budget, true)
      else if nested && !listing.remaining then Pruned(RemoveDir(left), listing.budget, false)
      else Pruned(Some(left), listing.budget, false)
  }

  /** Removing a directory succeeds on an empty one only. */
  function RemoveDir(d: Node): Option<Node>
    requires d.Dir?
  {
    if d.entries == [] && !d.unremovable then None else Some(d)
  }

  lemma ListingAt(es: seq<Entry>, i: nat, maxAge: nat, budget: nat)
    requires i <= |es|
    ensures i == |es| ==> PruneEntries(es[i..], maxAge, budget) == Listing([], budget, false, false)
    ensures i < |es| && budget == 0 ==> PruneEntries(es[i..], maxAge, budget) == Listing(es[i..], 0, false, false)
    ensures i < |es| && budget > 0 && es[i].broken ==> PruneEntries(es[i..], maxAge, budget) == Listing(es[i..], budget - 1, true, false)
    ensures i < |es| && budget > 0 && !es[i].broken ==>
              var first := PruneEntry(es[i], maxAge, budget - 1);
              var rest := PruneEntries(es[i + 1..], maxAge, first.budget);
              PruneEntries(es[i..], maxAge, budget)
              == Listing((if first.node.None? then [] else [es[i].(node := first.node.value)]) + rest.kept, rest.budget, rest.failed,
                         first.failed || (first.node.Some? && !es[i].node.Other?) || rest.remaining)
  {
    hide PruneEntry;
    assert i < |es| ==> es[i..][0] == es[i] && es[i..][1..] == es[i + 1..];
  }

  // ---- the loop of the source

  class Collector {
    var remainingBudget: nat
    /** How many entries have been looked at. */
    ghost var visited: nat

    constructor (budget: nat)
      ensures remainingBudget == budget && visited == 0
    {
      remainingBudget, visited := budget, 0;
    }

    /** The branches of the loop for one entry: what is left of it, and whether it sets
        `has_remaining_entries`. */
    method PruneOne(entry: Entry, maxAge: nat) returns (left: Option<Node>, ghost failed: bool, counts: bool)
      modifies this
      ensures Pruned(left, remainingBudget, failed) == PruneEntry(entry, maxAge, old(remainingBudget))
      ensures counts == (failed || (left.Some? && !entry.node.Other?))
      ensures visited + remainingBudget == old(visited + remainingBudget)
      decreases entry, 0
    {
      match entry.node {
        case Dir(_, _, _) =>
          var subFailed;
          left, subFailed := PruneDirectory(entry.node, maxAge, true);
          failed := subFailed;
          counts := false;
          if subFailed {
            counts := true;
          } else if left.Some? {
            counts := true;
          }
        case Leaf(age, undeletable) =>
          if age.Some? && age.value > maxAge && !undeletable {
            return None, false, false;
          }
          return Some(entry.node), false, true;
        case Other =>
          return Some(entry.node), false, false;
      }
    }

    /** Returns what is left of the directory, and whether an error was returned. */
    method PruneDirectory(d: Node, maxAge: nat, nested: bool) returns (left: Option<Node>, failed: bool)
      requires d.Dir?
      modifies this
      ensures Pruned(left, remainingBudget, failed) == PruneDir(d, maxAge, nested, old(remainingBudget))
      ensures visited + remainingBudget == old(visited + remainingBudget)
      decreases d, 1
    {
      hide PruneEntries, PruneEntry;
      if remainingBudget == 0 {
        return Some(d), false;
      }
      if d.unreadable {
        return Some(d), true;
      }
      var hasRemainingEntries := false;
      var kept: seq<Entry> := [];
      var i := 0;
      ghost var all := PruneEntries(d.entries, maxAge, remainingBudget);
      assert d.entries[0..] == d.entries;
      while i < |d.entries| && remainingBudget > 0
        invariant i <= |d.entries|
        invariant visited + remainingBudget == old(visited + remainingBudget)
        invariant var rest := PruneEntries(d.entries[i..], maxAge, remainingBudget);
                  all == Listing(kept + rest.kept, rest.budget, rest.failed, hasRemainingEntries || rest.remaining)
      {
        ListingAt(d.entries, i, maxAge, remainingBudget);
        remainingBudget := SatSub(remainingBudget, 1);
        visited := visited + 1;
        var entry := d.entries[i];
        if entry.broken {
          return Some(d.(entries := kept + d.entries[i..])), true;
        }
        var entryLeft, _, counts := PruneOne(entry, maxAge);
        if counts {
          hasRemainingEntries := true;
        }
        var shown := if entryLeft.None? then [] else [entry.(node := entryLeft.value)];
        Assoc(kept, shown, PruneEntries(d.entries[i + 1..], maxAge, remainingBudget).kept);
        kept := kept + shown;
        i := i + 1;
      }
      ListingAt(d.entries, i, maxAge, remainingBudget);
      kept := kept + d.entries[i..];
      var dir := d.(entries := kept);
      if nested && !hasRemainingEntries {
        return RemoveDir(dir), false;
      }
      return Some(dir), false;
    }
  }

  /** `None` stands for a root that is not configured or does not exist. */
  datatype Roots = Roots(session: Option<Node>, taskOutput: Option<Node>) {
    predicate Valid() {
      (session.Some? ==> session.value.Dir?) && (taskOutput.Some? ==> taskOutput.value.Dir?)
    }
  }

  function PruneRoot(root: Option<Node>, maxAge: nat, budget: nat): (r: Pruned)
    requires root.Some? ==> root.value.Dir?
    ensures (r.node.Some? <==> root.Some?) && (r.node.Some? ==> r.node.value.Dir?)
  {
    if root.Some? then PruneDir(root.value, maxAge, false, budget) else Pruned(None, budget, false)
  }

  function GcTick(roots: Roots, sessionMaxAge: nat, taskLogMaxAge: nat, budget: nat): (r: Roots)
    requires roots.Valid()
    ensures r.Valid()
  {
    var first := PruneRoot(roots.session, sessionMaxAge, budget);
    Roots(first.node, PruneRoot(roots.taskOutput, taskLogMaxAge, first.budget).node)
  }

  /** One tick: both roots are pruned with one budget, whatever errors the first one meets. */
  method PerformGc(roots: Roots, sessionMaxAge: nat, taskLogMaxAge: nat, maxEntries: nat)
    returns (left: Roots, budgetExhausted: bool, ghost visited: nat)
    requires roots.Valid()
    ensures visited <= maxEntries && (budgetExhausted <==> visited == maxEntries)
    ensures left == GcTick(roots, sessionMaxAge, taskLogMaxAge, maxEntries)
  {
    var gc := new Collector(maxEntries);
    var sessionLeft, taskOutputLeft := None, None;
    if roots.session.Some? {
      var failed;
      sessionLeft, failed := gc.PruneDirectory(roots.session.value, sessionMaxAge, false);
    }
    if roots.taskOutput.Some? {
      var failed;
      taskOutputLeft, failed := gc.PruneDirectory(roots.taskOutput.value, taskLogMaxAge, false);
    }
    left := Roots(sessionLeft, taskOutputLeft);
    budgetExhausted := gc.remainingBudget == 0;
    visited := gc.visited;
  }

  // ---- safety, under every budget and every failure

  type Path = seq<string>

  datatype Found = Found(path: Path, node: Node)

  predicate MustStay(n: Node, maxAge: nat) {
    n.Other? || (n.Leaf? && Fresh(n.age, maxAge))
  }

  /** The leaves that must survive, with their paths, in listing order. */
  function Keepers(n: Node, path: Path, maxAge: nat): seq<Found>
    decreases n, 1
  {
    match n
    case Dir(_, _, entries) => KeepersIn(entries, path, maxAge)
    case _ => if MustStay(n, maxAge) then [Found(path, n)] else []
  }

  function KeepersIn(es: seq<Entry>, path: Path, maxAge: nat): seq<Found>
    decreases es, 0
  {
    if es == [] then []
    else KeepersOf(es[0], path, maxAge) + KeepersIn(es[1..], path, maxAge)
  }

  function KeepersOf(e: Entry, path: Path, maxAge: nat): seq<Found>
    decreases e, 0
  {
    Keepers(e.node, path + [e.name], maxAge)
  }

  /** `a` arises from `b` by leaving out entries, at any depth. */
  predicate Within(a: Node, b: Node)
    decreases b, 1
  {
    match b
    case Dir(unreadable, unremovable, entries) =>
      a.Dir? && a.unreadable == unreadable && a.unremovable == unremovable && EntriesWithin(a.entries, entries)
    case _ => a == b
  }

  predicate EntriesWithin(a: seq<Entry>, b: seq<Entry>)
    decreases b, 0
  {
    if b == [] then a == []
    else
      || (a != [] && EntryWithin(a[0], b[0]) && EntriesWithin(a[1..], b[1..]))
      || EntriesWithin(a, b[1..])
  }

  predicate EntryWithin(a: Entry, b: Entry)
    decreases b, 0
  {
    a.name == b.name && a.broken == b.broken && Within(a.node, b.node)
  }

  lemma {:induction false} WithinSelf(n: Node)
    ensures Within(n, n)
    decreases n, 1
  {
    if n.Dir? { EntriesWithinSelf(n.entries); }
  }

  lemma {:induction false} EntriesWithinSelf(es: seq<Entry>)
    ensures EntriesWithin(es, es)
    decreases es, 0
  {
    if es != [] {
      WithinSelf(es[0].node);
      EntriesWithinSelf(es[1..]);
    }
  }

  lemma KeepersInCons(e: Entry, rest: seq<Entry>, path: Path, maxAge: nat)
    ensures KeepersIn([e] + rest, path, maxAge) == KeepersOf(e, path, maxAge) + KeepersIn(rest, path, maxAge)
  {
    assert ([e] + rest)[1..] == rest;
  }

  /** What pruning one entry keeps safe. */
  predicate EntrySafe(e: Entry, r: Pruned, budget: nat, maxAge: nat) {
    && r.budget <= budget
    && (r.node.Some? ==> Within(r.node.value, e.node) && (r.node.value.Other? <==> e.node.Other?))
  }

  lemma {:induction false} PruneEntrySafe(e: Entry, path: Path, maxAge: nat, budget: nat)
    ensures EntrySafe(e, PruneEntry(e, maxAge, budget), budget, maxAge)
    ensures KeepersOf(e, path, maxAge) ==
            match PruneEntry(e, maxAge, budget).node
            case None => []
            case Some(n) => KeepersOf(e.(node := n), path, maxAge)
    decreases e, 0
  {
    if e.node.Dir? {
      PruneDirSafe(e.node, path + [e.name], maxAge, true, budget);
    }
  }

  lemma {:induction false} PruneEntriesSafe(es: seq<Entry>, path: Path, maxAge: nat, budget: nat)
    ensures var l := PruneEntries(es, maxAge, budget);
            && l.budget <= budget
            && EntriesWithin(l.kept, es)
            && KeepersIn(l.kept, path, maxAge) == KeepersIn(es, path, maxAge)
    decreases es, 0
  {
    if es == [] || budget == 0 || es[0].broken {
      EntriesWithinSelf(es);
    } else {
      hide PruneEntry, KeepersOf, Within;
      var first := PruneEntry(es[0], maxAge, budget - 1);
      PruneEntrySafe(es[0], path, maxAge, budget - 1);
      PruneEntriesSafe(es[1..], path, maxAge, first.budget);
      if first.node.Some? {
        var left, rest := es[0].(node := first.node.value), PruneEntries(es[1..], maxAge, first.budget).kept;
        KeepersInCons(left, rest, path, maxAge);
        assert ([left] + rest)[0] == left && ([left] + rest)[1..] == rest;
      } else {
        assert [] + PruneEntries(es[1..], maxAge, first.budget).kept == PruneEntries(es[1..], maxAge, first.budget).kept;
      }
    }
  }

  /** Whatever the budget and whatever fails: the result lies within the input, every fresh
      file, fresh link and entry of another type stays where it is, and a removed directory
      held none of them. */
  lemma {:induction false} PruneDirSafe(d: Node, path: Path, maxAge: nat, nested: bool, budget: nat)
    requires d.Dir?
    ensures var r := PruneDir(d, maxAge, nested, budget);
            && r.budget <= budget
            && (!nested ==> r.node.Some?)
            && (r.node.Some? ==> r.node.value.Dir? && Within(r.node.value, d)
                                 && Keepers(r.node.value, path, maxAge) == Keepers(d, path, maxAge))
            && (r.node.None? ==> Keepers(d, path, maxAge) == [])
    decreases d, 1
  {
    WithinSelf(d);
    if budget > 0 && !d.unreadable {
      PruneEntriesSafe(d.entries, path, maxAge, budget);
    }
  }

  // ---- exactness

  predicate NoFaults(n: Node)
    decreases n, 1
  {
    match n
    case Dir(unreadable, unremovable, entries) => !unreadable && !unremovable && NoFaultsIn(entries)
    case Leaf(_, undeletable) => !undeletable
    case Other => true
  }

  predicate NoFaultsIn(es: seq<Entry>)
    decreases es, 0
  {
    es == [] || (!es[0].broken && NoFaults(es[0].node) && NoFaultsIn(es[1..]))
  }

  /** The number of entries below a directory. */
  function Count(n: Node): nat
    decreases n, 1
  {
    if n.Dir? then CountIn(n.entries) else 0
  }

  function CountIn(es: seq<Entry>): nat
    decreases es, 0
  {
    if es == [] then 0 else 1 + Count(es[0].node) + CountIn(es[1..])
  }

  /** The tree that should remain: the leaves that must stay and the directories above one. */
  function Wanted(n: Node, maxAge: nat): (r: Option<Node>)
    decreases n, 1
  {
    match n
    case Dir(_, _, entries) =>
      var kept := WantedIn(entries, maxAge);
      if kept == [] then None else Some(n.(entries := kept))
    case _ => if MustStay(n, maxAge) then Some(n) else None
  }

  function WantedIn(es: seq<Entry>, maxAge: nat): seq<Entry>
    decreases es, 0
  {
    if es == [] then []
    else
      (match Wanted(es[0].node, maxAge) case None => [] case Some(n) => [es[0].(node := n)])
      + WantedIn(es[1..], maxAge)
  }

  /** A directory is wanted exactly when a leaf that must stay lies below it. */
  lemma {:induction false} WantedIffKeepers(n: Node, path: Path, maxAge: nat)
    ensures Wanted(n, maxAge).Some? <==> Keepers(n, path, maxAge) != []
    decreases n, 1
  {
    if n.Dir? { WantedInIffKeepers(n.entries, path, maxAge); }
  }

  lemma {:induction false} WantedInIffKeepers(es: seq<Entry>, path: Path, maxAge: nat)
    ensures WantedIn(es, maxAge) != [] <==> KeepersIn(es, path, maxAge) != []
    decreases es, 0
  {
    if es != [] {
      WantedIffKeepers(es[0].node, path + [es[0].name], maxAge);
      WantedInIffKeepers(es[1..], path, maxAge);
    }
  }

  lemma {:induction false} PruneEntryExact(e: Entry, maxAge: nat, budget: nat)
    requires NoFaults(e.node) && Count(e.node) < budget
    ensures PruneEntry(e, maxAge, budget) == Pruned(Wanted(e.node, maxAge), budget - Count(e.node), false)
    decreases e, 0
  {
    if e.node.Dir? { PruneDirExact(e.node, maxAge, true, budget); }
  }

  lemma {:induction false} PruneEntriesExact(es: seq<Entry>, maxAge: nat, budget: nat)
    requires NoFaultsIn(es) && CountIn(es) < budget
    ensures var l := PruneEntries(es, maxAge, budget);
            && l.kept == WantedIn(es, maxAge) && l.budget == budget - CountIn(es) && !l.failed
            && (l.kept == [] ==> !l.remaining)
    decreases es, 0
  {
    if es != [] {
      hide PruneEntry;
      PruneEntryExact(es[0], maxAge, budget - 1);
      PruneEntriesExact(es[1..], maxAge, budget - 1 - Count(es[0].node));
    }
  }

  /** With a budget greater than the number of entries and no failure, pruning leaves exactly
      the wanted tree below the directory, and spends one unit for each entry. */
  lemma {:induction false} PruneDirExact(d: Node, maxAge: nat, nested: bool, budget: nat)
    requires d.Dir? && NoFaults(d) && Count(d) < budget
    ensures PruneDir(d, maxAge, nested, budget)
         == Pruned(if nested then Wanted(d, maxAge) else Some(d.(entries := WantedIn(d.entries, maxAge))), budget - Count(d), false)
    decreases d, 1
  {
    PruneEntriesExact(d.entries, maxAge, budget);
    var l := PruneEntries(d.entries, maxAge, budget);
    if l.kept == [] {
      assert WantedIn(d.entries, maxAge) == [];
    }
  }

  lemma {:induction false} WantedStays(n: Node, maxAge: nat)
    requires NoFaults(n) && Wanted(n, maxAge).Some?
    ensures var w := Wanted(n, maxAge).value;
            NoFaults(w) && Count(w) <= Count(n) && Wanted(w, maxAge) == Some(w) && (w.Dir? <==> n.Dir?)
    decreases n, 1
  {
    if n.Dir? { WantedInStays(n.entries, maxAge); }
  }

  lemma {:induction false} WantedInStays(es: seq<Entry>, maxAge: nat)
    requires NoFaultsIn(es)
    ensures var w := WantedIn(es, maxAge);
            NoFaultsIn(w) && CountIn(w) <= CountIn(es) && WantedIn(w, maxAge) == w
    decreases es, 0
  {
    if es != [] {
      WantedInStays(es[1..], maxAge);
      var rest := WantedIn(es[1..], maxAge);
      var first := Wanted(es[0].node, maxAge);
      if first.Some? {
        WantedStays(es[0].node, maxAge);
        var left := es[0].(node := first.value);
        assert ([left] + rest)[0] == left && ([left] + rest)[1..] == rest;
      } else {
        assert [] + rest == rest;
      }
    }
  }

  /** A second complete prune changes nothing. */
  lemma PruneTwice(d: Node, maxAge: nat, budget: nat)
    requires d.Dir? && NoFaults(d) && Count(d) < budget
    ensures var once := PruneDir(d, maxAge, false, budget).node;
            && once.Some? && once.value.Dir?
            && PruneDir(once.value, maxAge, false, budget).node == once
  {
    PruneDirExact(d, maxAge, false, budget);
    WantedInStays(d.entries, maxAge);
    var once := d.(entries := WantedIn(d.entries, maxAge));
    PruneDirExact(once, maxAge, false, budget);
  }

  // ---- what failures leave behind

  /** The tree that a complete prune leaves under the failures in it: an undeletable leaf and an
      unreadable directory stay whole, an unremovable directory stays empty, and a broken entry
      keeps itself and everything behind it in its own directory. Nothing else is kept back. */
  function Remains(n: Node, maxAge: nat): Option<Node>
    decreases n, 1
  {
    match n
    case Dir(unreadable, unremovable, entries) =>
      if unreadable then Some(n)
      else
        var kept := RemainsIn(entries, maxAge);
        if kept == [] && !unremovable then None else Some(n.(entries := kept))
    case Leaf(_, undeletable) => if MustStay(n, maxAge) || undeletable then Some(n) else None
    case Other => Some(n)
  }

  function RemainsIn(es: seq<Entry>, maxAge: nat): seq<Entry>
    decreases es, 0
  {
    if es == [] then []
    else if es[0].broken then es
    else
      (match Remains(es[0].node, maxAge) case None => [] case Some(n) => [es[0].(node := n)])
      + RemainsIn(es[1..], maxAge)
  }

  lemma {:induction false} PruneEntryUnderFaults(e: Entry, maxAge: nat, budget: nat)
    requires Count(e.node) < budget
    ensures var r := PruneEntry(e, maxAge, budget);
            && r.node == Remains(e.node, maxAge) && budget - Count(e.node) <= r.budget
            && (r.failed ==> r.node.Some?)
    decreases e, 0
  {
    if e.node.Dir? {
      hide PruneEntries, RemainsIn;
      PruneEntriesUnderFaults(e.node.entries, maxAge, budget);
    }
  }

  lemma {:induction false} PruneEntriesUnderFaults(es: seq<Entry>, maxAge: nat, budget: nat)
    requires CountIn(es) < budget
    ensures var l := PruneEntries(es, maxAge, budget);
            && l.kept == RemainsIn(es, maxAge) && budget - CountIn(es) <= l.budget
            && (l.kept == [] ==> !l.remaining && !l.failed)
    decreases es, 0
  {
    if es != [] && !es[0].broken {
      hide PruneEntry, Remains;
      PruneEntryUnderFaults(es[0], maxAge, budget - 1);
      PruneEntriesUnderFaults(es[1..], maxAge, PruneEntry(es[0], maxAge, budget - 1).budget);
    }
  }

  /** With a budget greater than the number of entries, and under every pattern of failures, a
      prune of a root leaves exactly that tree: no failure reaches beyond its own directory. */
  lemma PruneUnderFaults(d: Node, maxAge: nat, budget: nat)
    requires d.Dir? && Count(d) < budget
    ensures PruneDir(d, maxAge, false, budget).node
         == Some(if d.unreadable then d else d.(entries := RemainsIn(d.entries, maxAge)))
  {
    PruneEntriesUnderFaults(d.entries, maxAge, budget);
  }

  /** Without failures that is the wanted tree. */
  lemma {:induction false} RemainsIsWanted(n: Node, maxAge: nat)
    requires NoFaults(n)
    ensures Remains(n, maxAge) == Wanted(n, maxAge)
    decreases n, 1
  {
    if n.Dir? { RemainsInIsWanted(n.entries, maxAge); }
  }

  lemma {:induction false} RemainsInIsWanted(es: seq<Entry>, maxAge: nat)
    requires NoFaultsIn(es)
    ensures RemainsIn(es, maxAge) == WantedIn(es, maxAge)
    decreases es, 0
  {
    if es != [] {
      RemainsIsWanted(es[0].node, maxAge);
      RemainsInIsWanted(es[1..], maxAge);
    }
  }

  /** Which leaves a tick that gets to them leaves: those of unknown age, those no older than
      the retention time, and those that cannot be deleted. It never changes one. */
  lemma LeafStaysIff(e: Entry, maxAge: nat, budget: nat)
    requires e.node.Leaf?
    ensures PruneEntry(e, maxAge, budget).node.Some?
       <==> e.node.age.None? || e.node.age.value <= maxAge || e.node.undeletable
    ensures PruneEntry(e, maxAge, budget).node.Some? ==> PruneEntry(e, maxAge, budget).node.value == e.node
    ensures PruneEntry(e, maxAge, budget).budget == budget && !PruneEntry(e, maxAge, budget).failed
  {
  }

  // ---- a tick that changes nothing

  /** A tick that gets to the leaf removes it. */
  predicate Removable(n: Node, maxAge: nat) {
    n.Leaf? && !Fresh(n.age, maxAge) && !n.undeletable
  }

  /** The listing gets to entry `i`: the budget lasts and no error ends it before. */
  predicate Visits(es: seq<Entry>, budget: nat, i: nat)
    requires i < |es|
  {
    i < budget && forall j :: 0 <= j <= i ==> !es[j].broken
  }

  lemma FlatStep(es: seq<Entry>, maxAge: nat, budget: nat)
    requires es != [] && budget > 0 && !es[0].broken && !es[0].node.Dir?
    ensures PruneEntries(es, maxAge, budget).kept
         == (if Removable(es[0].node, maxAge) then [] else [es[0]]) + PruneEntries(es[1..], maxAge, budget - 1).kept
  {
    assert es[0].(node := es[0].node) == es[0];
  }

  lemma VisitsBehind(es: seq<Entry>, budget: nat, i: nat)
    requires i + 1 < |es| && budget > 0 && !es[0].broken
    ensures Visits(es[1..], budget - 1, i) <==> Visits(es, budget, i + 1)
  {
    if Visits(es[1..], budget - 1, i) {
      forall j | 0 <= j <= i + 1 ensures !es[j].broken {
        if j > 0 { assert !es[1..][j - 1].broken; }
      }
    }
  }

  /** The listing gets to no removable entry. */
  ghost predicate NothingToRemove(es: seq<Entry>, maxAge: nat, budget: nat) {
    forall i :: 0 <= i < |es| && Visits(es, budget, i) ==> !Removable(es[i].node, maxAge)
  }

  lemma NothingToRemoveCons(es: seq<Entry>, maxAge: nat, budget: nat)
    requires es != [] && budget > 0 && !es[0].broken
    ensures NothingToRemove(es, maxAge, budget)
       <==> !Removable(es[0].node, maxAge) && NothingToRemove(es[1..], maxAge, budget - 1)
  {
    hide Removable, Visits;
    assert Visits(es, budget, 0) by { VisitsFirst(es, budget); }
    forall i | 0 <= i < |es[1..]| && NothingToRemove(es, maxAge, budget) && Visits(es[1..], budget - 1, i)
      ensures !Removable(es[1..][i].node, maxAge)
    {
      VisitsBehind(es, budget, i);
      assert es[1..][i] == es[i + 1];
    }
    if NothingToRemove(es[1..], maxAge, budget - 1) && !Removable(es[0].node, maxAge) {
      forall i | 0 <= i < |es| && Visits(es, budget, i) ensures !Removable(es[i].node, maxAge) {
        if i > 0 { VisitsBehind(es, budget, i - 1); }
      }
    }
  }

  lemma VisitsFirst(es: seq<Entry>, budget: nat)
    requires es != [] && budget > 0 && !es[0].broken
    ensures Visits(es, budget, 0)
  {
  }

  /** A listing without directories stays as it is exactly when the tick gets to no removable
      entry. Fresh entries, undeletable ones, other types and a broken entry all keep it from
      the removable ones behind them. */
  lemma {:induction false} FlatStaysIff(es: seq<Entry>, maxAge: nat, budget: nat)
    requires forall e :: e in es ==> !e.node.Dir?
    ensures PruneEntries(es, maxAge, budget).kept == es <==> NothingToRemove(es, maxAge, budget)
    ensures |PruneEntries(es, maxAge, budget).kept| <= |es|
    decreases |es|
  {
    if es != [] && budget > 0 && !es[0].broken {
      hide NothingToRemove, PruneEntries, Removable;
      FlatStaysIff(es[1..], maxAge, budget - 1);
      NothingToRemoveCons(es, maxAge, budget);
      FlatStep(es, maxAge, budget);
      PrependIff(es, Removable(es[0].node, maxAge), PruneEntries(es[1..], maxAge, budget - 1).kept);
    }
  }

  lemma PrependIff(es: seq<Entry>, removed: bool, kept: seq<Entry>)
    requires es != [] && |kept| < |es|
    ensures (if removed then [] else [es[0]]) + kept == es <==> !removed && kept == es[1..]
  {
    assert !removed ==> ([es[0]] + kept)[1..] == kept;
  }

  // ---- ticks that get everywhere

  /** What one tick leaves of a listing. */
  function Tick(es: seq<Entry>, maxAge: nat, budget: nat): seq<Entry> {
    PruneEntries(es, maxAge, budget).kept
  }

  function TickEntry(e: Entry, maxAge: nat, budget: nat): seq<Entry> {
    match PruneEntry(e, maxAge, budget).node
    case None => []
    case Some(n) => [e.(node := n)]
  }

  /** Without failures the budget left is what the entries do not use up, and a directory is
      removed exactly when it is entered and nothing is left in it. */
  lemma {:induction false} EntriesLeftover(es: seq<Entry>, maxAge: nat, budget: nat)
    requires NoFaultsIn(es)
    ensures var l := PruneEntries(es, maxAge, budget);
            l.budget == SatSub(budget, CountIn(es)) && !l.failed && (l.kept == [] ==> !l.remaining)
    decreases es, 0
  {
    if es != [] && budget > 0 {
      hide PruneEntry;
      EntryLeftover(es[0], maxAge, budget - 1);
      EntriesLeftover(es[1..], maxAge, SatSub(budget - 1, Count(es[0].node)));
    }
  }

  lemma {:induction false} EntryLeftover(e: Entry, maxAge: nat, budget: nat)
    requires NoFaults(e.node)
    ensures var r := PruneEntry(e, maxAge, budget);
            r.budget == SatSub(budget, Count(e.node)) && !r.failed
    ensures e.node.Dir? ==>
              var left := if budget == 0 then e.node.entries else Tick(e.node.entries, maxAge, budget);
              TickEntry(e, maxAge, budget) == if budget > 0 && left == [] then [] else [e.(node := e.node.(entries := left))]
    decreases e, 0
  {
    if e.node.Dir? {
      hide PruneEntries;
      EntriesLeftover(e.node.entries, maxAge, budget);
    }
  }

  /** One step of a tick without failures. */
  lemma TickCons(es: seq<Entry>, maxAge: nat, budget: nat)
    requires NoFaultsIn(es) && es != [] && budget > 0
    ensures Tick(es, maxAge, budget)
         == TickEntry(es[0], maxAge, budget - 1) + Tick(es[1..], maxAge, SatSub(budget - 1, Count(es[0].node)))
  {
    hide PruneEntry;
    EntryLeftover(es[0], maxAge, budget - 1);
  }

  /** A tick keeps what must stay, breaks nothing, and never adds an entry. */
  lemma {:induction false} TickKeeps(es: seq<Entry>, maxAge: nat, budget: nat)
    requires NoFaultsIn(es)
    ensures var kept := Tick(es, maxAge, budget);
            && NoFaultsIn(kept) && WantedIn(kept, maxAge) == WantedIn(es, maxAge)
            && CountIn(kept) <= CountIn(es) && (CountIn(kept) == CountIn(es) ==> kept == es)
    decreases es, 0
  {
    if es != [] && budget > 0 {
      hide PruneEntries, PruneEntry, Wanted, NoFaults, Count, Tick, TickEntry;
      var a := budget - 1;
      var rest := SatSub(a, Count(es[0].node));
      TickCons(es, maxAge, budget);
      TickEntryKeeps(es[0], maxAge, a);
      TickKeeps(es[1..], maxAge, rest);
      Split(TickEntry(es[0], maxAge, a), Tick(es[1..], maxAge, rest), maxAge);
      Split([es[0]], es[1..], maxAge);
      assert es == [es[0]] + es[1..];
    }
  }

  lemma {:induction false} TickEntryKeeps(e: Entry, maxAge: nat, budget: nat)
    requires NoFaultsIn([e])
    ensures var kept := TickEntry(e, maxAge, budget);
            && |kept| <= 1 && NoFaultsIn(kept) && WantedIn(kept, maxAge) == WantedIn([e], maxAge)
            && CountIn(kept) <= CountIn([e]) && (CountIn(kept) == CountIn([e]) ==> kept == [e])
    decreases e, 0
  {
    EntryLeftover(e, maxAge, budget);
    if e.node.Dir? && budget > 0 {
      TickKeeps(e.node.entries, maxAge, budget);
    }
  }

  lemma {:induction false} Split(first: seq<Entry>, rest: seq<Entry>, maxAge: nat)
    requires |first| <= 1
    ensures NoFaultsIn(first + rest) <==> NoFaultsIn(first) && NoFaultsIn(rest)
    ensures WantedIn(first + rest, maxAge) == WantedIn(first, maxAge) + WantedIn(rest, maxAge)
    ensures CountIn(first + rest) == CountIn(first) + CountIn(rest)
  {
    if first == [] {
      assert first + rest == rest;
    } else {
      hide Wanted, Count, NoFaults;
      assert (first + rest)[1..] == rest && first[1..] == [];
    }
  }

  // ---- how much budget the retries need

  function Inc(k: nat, x: nat): nat {
    if x == 0 then 0 else k + x
  }

  /** The units that what stays of an entry uses up at every tick. */
  function Ahead(e: Entry, maxAge: nat): nat {
    match Wanted(e.node, maxAge) case None => 0 case Some(n) => 1 + Count(n)
  }

  /** The budget that lets every removable entry of a listing be reached in the end: one unit
      for a leaf and two for a directory that should go, on top of what stays in front of it
      and the directories around it. Zero when nothing should go. */
  function Need(es: seq<Entry>, maxAge: nat): nat
    decreases es, 0
  {
    if es == [] then 0 else Max(NeedOf(es[0], maxAge), Inc(Ahead(es[0], maxAge), Need(es[1..], maxAge)))
  }

  function NeedOf(e: Entry, maxAge: nat): nat
    decreases e, 0
  {
    if e.node.Dir? then
      if Wanted(e.node, maxAge).Some? then Inc(1, Need(e.node.entries, maxAge))
      else Max(2, 1 + Need(e.node.entries, maxAge))
    else if MustStay(e.node, maxAge) then 0 else 1
  }

  lemma IncMax(a: nat, k: nat, count: nat, x: nat, y: nat)
    requires a > 0 && k <= 1 + count
    requires var c := SatSub(a - 1, count); Max(c, x) == Max(c, y)
    ensures Max(a, Inc(k, x)) == Max(a, Inc(k, y))
  {
  }

  lemma {:induction false} WantedCount(n: Node, maxAge: nat)
    ensures Wanted(n, maxAge).Some? ==> Count(Wanted(n, maxAge).value) <= Count(n)
    decreases n, 1
  {
    if n.Dir? { WantedInCount(n.entries, maxAge); }
  }

  lemma {:induction false} WantedInCount(es: seq<Entry>, maxAge: nat)
    ensures CountIn(WantedIn(es, maxAge)) <= CountIn(es)
    decreases es, 0
  {
    if es != [] {
      hide Wanted, Count;
      WantedCount(es[0].node, maxAge);
      WantedInCount(es[1..], maxAge);
      match Wanted(es[0].node, maxAge) {
        case None => assert [] + WantedIn(es[1..], maxAge) == WantedIn(es[1..], maxAge);
        case Some(n) => Split([es[0].(node := n)], WantedIn(es[1..], maxAge), maxAge);
      }
    }
  }

  /** Needs above the budget stay as they are under ticks with that budget. */
  lemma {:induction false} TickNeed(es: seq<Entry>, maxAge: nat, budget: nat)
    requires NoFaultsIn(es)
    ensures Max(budget, Need(Tick(es, maxAge, budget), maxAge)) == Max(budget, Need(es, maxAge))
    decreases es, 0
  {
    if es != [] && budget > 0 {
      hide PruneEntries, PruneEntry, Wanted, NoFaults, Count, Tick, TickEntry, NeedOf, Ahead, Inc;
      var first := TickEntry(es[0], maxAge, budget - 1);
      var rest := Tick(es[1..], maxAge, SatSub(budget - 1, Count(es[0].node)));
      TickCons(es, maxAge, budget);
      TickEntryNeed(es[0], maxAge, budget);
      TickNeed(es[1..], maxAge, SatSub(budget - 1, Count(es[0].node)));
      AheadAtMost(es[0], maxAge);
      IncMax(budget, Ahead(es[0], maxAge), Count(es[0].node), Need(rest, maxAge), Need(es[1..], maxAge));
      if first == [] {
        assert first + rest == rest;
        IncZero(Need(rest, maxAge));
      } else {
        assert (first + rest)[0] == first[0] && (first + rest)[1..] == rest;
      }
    }
  }

  lemma IncZero(x: nat)
    ensures Inc(0, x) == x
  {
  }

  lemma AheadAtMost(e: Entry, maxAge: nat)
    ensures Ahead(e, maxAge) <= 1 + Count(e.node)
  {
    WantedCount(e.node, maxAge);
  }

  lemma DirNeed(e: Entry, maxAge: nat)
    requires e.node.Dir?
    ensures var kept := WantedIn(e.node.entries, maxAge);
            && Ahead(e, maxAge) == (if kept == [] then 0 else 1 + CountIn(kept))
            && NeedOf(e, maxAge) == if kept == [] then Max(2, 1 + Need(e.node.entries, maxAge)) else Inc(1, Need(e.node.entries, maxAge))
  {
  }

  lemma {:induction false} TickEntryNeed(e: Entry, maxAge: nat, budget: nat)
    requires NoFaultsIn([e]) && budget > 0
    ensures var kept := TickEntry(e, maxAge, budget - 1);
            && |kept| <= 1
            && (kept == [] ==> NeedOf(e, maxAge) <= budget && Ahead(e, maxAge) == 0)
            && (kept != [] ==> Ahead(kept[0], maxAge) == Ahead(e, maxAge)
                               && Max(budget, NeedOf(kept[0], maxAge)) == Max(budget, NeedOf(e, maxAge)))
    decreases e, 0
  {
    if e.node.Dir? {
      hide PruneEntries, PruneEntry, Tick, TickEntry, Need, NeedOf, Ahead, Wanted, WantedIn, Count, CountIn;
      EntryLeftover(e, maxAge, budget - 1);
      if budget > 1 {
        var entries := e.node.entries;
        var left := Tick(entries, maxAge, budget - 1);
        TickKeeps(entries, maxAge, budget - 1);
        TickNeed(entries, maxAge, budget - 1);
        DirNeed(e, maxAge);
        if left == [] {
          NothingNeeded(maxAge);
        } else {
          DirNeed(e.(node := e.node.(entries := left)), maxAge);
        }
      }
    }
  }

  lemma NothingNeeded(maxAge: nat)
    ensures Need([], maxAge) == 0 && WantedIn([], maxAge) == []
  {
  }

  lemma NeedAt(es: seq<Entry>, maxAge: nat)
    requires es != []
    ensures Need(es, maxAge) == Max(NeedOf(es[0], maxAge), Inc(Ahead(es[0], maxAge), Need(es[1..], maxAge)))
  {
  }

  lemma {:induction false} WantedInShorter(es: seq<Entry>, maxAge: nat)
    ensures |WantedIn(es, maxAge)| <= |es|
    decreases |es|
  {
    if es != [] { WantedInShorter(es[1..], maxAge); }
  }

  lemma WantedAt(es: seq<Entry>, maxAge: nat)
    requires es != []
    ensures WantedIn(es, maxAge) == es
       <==> Wanted(es[0].node, maxAge) == Some(es[0].node) && WantedIn(es[1..], maxAge) == es[1..]
  {
    hide Wanted;
    WantedInShorter(es[1..], maxAge);
    assert es == [es[0]] + es[1..];
    if WantedIn(es, maxAge) == es && Wanted(es[0].node, maxAge).Some? {
      var first := [es[0].(node := Wanted(es[0].node, maxAge).value)];
      var rest := WantedIn(es[1..], maxAge);
      assert (first + rest)[0] == first[0] && (first + rest)[1..] == rest;
    }
  }

  /** Nothing is needed exactly by the listings that are as they should be. */
  lemma {:induction false} NeedZeroIff(es: seq<Entry>, maxAge: nat)
    requires NoFaultsIn(es)
    ensures Need(es, maxAge) == 0 <==> WantedIn(es, maxAge) == es
    decreases es, 0
  {
    if es != [] {
      hide Need, NeedOf, Ahead, Wanted, WantedIn, NoFaults;
      NeedAt(es, maxAge);
      WantedAt(es, maxAge);
      NeedZeroIff(es[1..], maxAge);
      NeedOfZeroIff(es[0], maxAge);
    } else {
      NothingNeeded(maxAge);
    }
  }

  lemma {:induction false} NeedOfZeroIff(e: Entry, maxAge: nat)
    requires NoFaults(e.node)
    ensures NeedOf(e, maxAge) == 0 <==> Wanted(e.node, maxAge) == Some(e.node)
    decreases e, 0
  {
    if e.node.Dir? {
      NeedZeroIff(e.node.entries, maxAge);
    }
  }

  /** A tick changes nothing in a listing that is as it should be. */
  lemma WantedIsFixed(es: seq<Entry>, maxAge: nat, budget: nat)
    requires NoFaultsIn(es) && WantedIn(es, maxAge) == es
    ensures Tick(es, maxAge, budget) == es
  {
    TickKeeps(es, maxAge, budget);
    WantedInCount(Tick(es, maxAge, budget), maxAge);
  }

  /** A tick with the needed budget changes every listing that is not yet as it should be. */
  lemma {:induction false} NeededBudgetMoves(es: seq<Entry>, maxAge: nat, budget: nat)
    requires NoFaultsIn(es) && Need(es, maxAge) <= budget && Tick(es, maxAge, budget) == es
    ensures WantedIn(es, maxAge) == es
    decreases es, 0
  {
    if budget == 0 {
      NeedZeroIff(es, maxAge);
    } else if es != [] {
      hide PruneEntries, PruneEntry, Need, NeedOf, Ahead, Wanted, WantedIn, NoFaults, Tick, TickEntry, Count;
      var rest := SatSub(budget - 1, Count(es[0].node));
      TickCons(es, maxAge, budget);
      TickKeeps(es[1..], maxAge, rest);
      TickEntryKeeps(es[0], maxAge, budget - 1);
      Split(TickEntry(es[0], maxAge, budget - 1), Tick(es[1..], maxAge, rest), maxAge);
      Split([es[0]], es[1..], maxAge);
      assert es == [es[0]] + es[1..];
      NeedAt(es, maxAge);
      NeededBudgetMovesEntry(es[0], maxAge, budget);
      NeededBudgetMoves(es[1..], maxAge, rest);
      WantedAt(es, maxAge);
    }
  }

  lemma {:induction false} NeededBudgetMovesEntry(e: Entry, maxAge: nat, budget: nat)
    requires NoFaults(e.node) && NeedOf(e, maxAge) <= budget && budget > 0 && TickEntry(e, maxAge, budget - 1) == [e]
    ensures Wanted(e.node, maxAge) == Some(e.node) && Ahead(e, maxAge) == 1 + Count(e.node)
    decreases e, 0
  {
    if e.node.Dir? {
      hide PruneEntries, PruneEntry, Tick, TickEntry, Need, WantedIn, Count;
      EntryLeftover(e, maxAge, budget - 1);
      if budget == 1 {
        NeedZeroIff(e.node.entries, maxAge);
      } else {
        NeededBudgetMoves(e.node.entries, maxAge, budget - 1);
      }
    }
  }

  // ---- the tick on both roots, again and again

  predicate RootNoFaults(root: Option<Node>) {
    root.Some? ==> root.value.Dir? && NoFaults(root.value)
  }

  function EntriesOf(root: Option<Node>): seq<Entry>
    requires root.Some? ==> root.value.Dir?
  {
    if root.Some? then root.value.entries else []
  }

  function WithEntries(root: Option<Node>, es: seq<Entry>): Option<Node>
    requires root.Some? ==> root.value.Dir?
  {
    if root.Some? then Some(root.value.(entries := es)) else None
  }

  /** The tick of `PerformGc`, with the same budget and ages again and again. */
  function GcTicks(roots: Roots, sessionMaxAge: nat, taskLogMaxAge: nat, budget: nat, n: nat): (r: Roots)
    requires roots.Valid()
    ensures r.Valid()
    decreases n
  {
    if n == 0 then roots
    else GcTicks(GcTick(roots, sessionMaxAge, taskLogMaxAge, budget), sessionMaxAge, taskLogMaxAge, budget, n - 1)
  }

  /** Both roots as they should be. */
  function WantedRoots(roots: Roots, sessionMaxAge: nat, taskLogMaxAge: nat): Roots
    requires roots.Valid()
  {
    Roots(WithEntries(roots.session, WantedIn(EntriesOf(roots.session), sessionMaxAge)),
          WithEntries(roots.taskOutput, WantedIn(EntriesOf(roots.taskOutput), taskLogMaxAge)))
  }

  /** What stays under the first root uses up budget that the second one lacks. */
  function GcNeed(roots: Roots, sessionMaxAge: nat, taskLogMaxAge: nat): nat
    requires roots.Valid()
  {
    var session, taskOutput := EntriesOf(roots.session), EntriesOf(roots.taskOutput);
    Max(Need(session, sessionMaxAge),
        Inc(CountIn(WantedIn(session, sessionMaxAge)), Need(taskOutput, taskLogMaxAge)))
  }

  function GcCount(roots: Roots): nat
    requires roots.Valid()
  {
    CountIn(EntriesOf(roots.session)) + CountIn(EntriesOf(roots.taskOutput))
  }

  lemma PruneRootIsTick(root: Option<Node>, maxAge: nat, budget: nat)
    requires RootNoFaults(root)
    ensures PruneRoot(root, maxAge, budget).node == WithEntries(root, Tick(EntriesOf(root), maxAge, budget))
    ensures PruneRoot(root, maxAge, budget).budget == SatSub(budget, CountIn(EntriesOf(root)))
  {
    hide PruneEntry;
    if root.Some? {
      EntriesLeftover(root.value.entries, maxAge, budget);
    }
  }

  lemma RootNoFaultsIff(root: Option<Node>, es: seq<Entry>)
    requires RootNoFaults(root)
    ensures NoFaultsIn(EntriesOf(root))
    ensures NoFaultsIn(es) ==> RootNoFaults(WithEntries(root, es))
    ensures WithEntries(root, EntriesOf(root)) == root
    ensures root.Some? ==> EntriesOf(WithEntries(root, es)) == es
    ensures root.None? ==> WithEntries(root, es) == root && EntriesOf(root) == []
  {
  }

  lemma PairIncMax(a: nat, k: nat, count: nat, x: nat, y: nat)
    requires k <= count
    requires var c := SatSub(a, count); Max(c, x) == Max(c, y)
    ensures Max(a, Inc(k, x)) == Max(a, Inc(k, y))
  {
  }

  /** What a tick does to the listing of one root. */
  lemma RootTick(root: Option<Node>, maxAge: nat, budget: nat)
    requires RootNoFaults(root)
    ensures var r := PruneRoot(root, maxAge, budget);
            && RootNoFaults(r.node) && r.budget == SatSub(budget, CountIn(EntriesOf(root)))
            && WithEntries(r.node, WantedIn(EntriesOf(r.node), maxAge)) == WithEntries(root, WantedIn(EntriesOf(root), maxAge))
            && WantedIn(EntriesOf(r.node), maxAge) == WantedIn(EntriesOf(root), maxAge)
            && Max(budget, Need(EntriesOf(r.node), maxAge)) == Max(budget, Need(EntriesOf(root), maxAge))
            && CountIn(EntriesOf(r.node)) <= CountIn(EntriesOf(root))
            && (CountIn(EntriesOf(r.node)) == CountIn(EntriesOf(root)) ==> r.node == root && Tick(EntriesOf(root), maxAge, budget) == EntriesOf(root))
  {
    hide PruneRoot, Tick, Need, WantedIn, CountIn, NoFaultsIn, NoFaults;
    var es := EntriesOf(root);
    var kept := Tick(es, maxAge, budget);
    PruneRootIsTick(root, maxAge, budget);
    RootNoFaultsIff(root, kept);
    TickKeeps(es, maxAge, budget);
    TickNeed(es, maxAge, budget);
    if root.None? { TickNothing(maxAge, budget); }
  }

  lemma TickNothing(maxAge: nat, budget: nat)
    ensures Tick([], maxAge, budget) == []
  {
  }

  lemma GcTickNeed(roots: Roots, sessionMaxAge: nat, taskLogMaxAge: nat, budget: nat)
    requires roots.Valid() && RootNoFaults(roots.session) && RootNoFaults(roots.taskOutput)
    ensures var after := GcTick(roots, sessionMaxAge, taskLogMaxAge, budget);
            && RootNoFaults(after.session) && RootNoFaults(after.taskOutput)
            && WantedRoots(after, sessionMaxAge, taskLogMaxAge) == WantedRoots(roots, sessionMaxAge, taskLogMaxAge)
            && Max(budget, GcNeed(after, sessionMaxAge, taskLogMaxAge)) == Max(budget, GcNeed(roots, sessionMaxAge, taskLogMaxAge))
            && GcCount(after) <= GcCount(roots)
            && (GcCount(after) == GcCount(roots) && GcNeed(roots, sessionMaxAge, taskLogMaxAge) <= budget
                ==> roots == WantedRoots(roots, sessionMaxAge, taskLogMaxAge))
  {
    hide PruneRoot, PruneEntries, Tick, Need, WantedIn, CountIn, NoFaultsIn, NoFaults, WithEntries, EntriesOf, RootNoFaults, Inc;
    var session, taskOutput := EntriesOf(roots.session), EntriesOf(roots.taskOutput);
    RootTick(roots.session, sessionMaxAge, budget);
    var c := SatSub(budget, CountIn(session));
    RootTick(roots.taskOutput, taskLogMaxAge, c);
    WantedInCount(session, sessionMaxAge);
    var after := GcTick(roots, sessionMaxAge, taskLogMaxAge, budget);
    PairIncMax(budget, CountIn(WantedIn(session, sessionMaxAge)), CountIn(session),
               Need(EntriesOf(after.taskOutput), taskLogMaxAge), Need(taskOutput, taskLogMaxAge));
    if GcCount(after) == GcCount(roots) && GcNeed(roots, sessionMaxAge, taskLogMaxAge) <= budget {
      RootNoFaultsIff(roots.session, session);
      RootNoFaultsIff(roots.taskOutput, taskOutput);
      NeededBudgetMoves(session, sessionMaxAge, budget);
      IncWithin(CountIn(session), Need(taskOutput, taskLogMaxAge), budget);
      NeededBudgetMoves(taskOutput, taskLogMaxAge, c);
    }
  }

  lemma IncWithin(k: nat, x: nat, budget: nat)
    requires Inc(k, x) <= budget
    ensures x <= SatSub(budget, k)
  {
  }

  /** Both roots hold exactly what must stay. */
  predicate Clean(roots: Roots, sessionMaxAge: nat, taskLogMaxAge: nat)
    requires roots.Valid()
  {
    roots == WantedRoots(roots, sessionMaxAge, taskLogMaxAge)
  }

  lemma CleanIff(roots: Roots, sessionMaxAge: nat, taskLogMaxAge: nat)
    requires roots.Valid() && RootNoFaults(roots.session) && RootNoFaults(roots.taskOutput)
    ensures Clean(roots, sessionMaxAge, taskLogMaxAge) <==> GcNeed(roots, sessionMaxAge, taskLogMaxAge) == 0
    ensures Clean(roots, sessionMaxAge, taskLogMaxAge) ==>
              && WantedIn(EntriesOf(roots.session), sessionMaxAge) == EntriesOf(roots.session)
              && WantedIn(EntriesOf(roots.taskOutput), taskLogMaxAge) == EntriesOf(roots.taskOutput)
  {
    hide Need, WantedIn, CountIn, NoFaultsIn, NoFaults;
    RootNoFaultsIff(roots.session, []);
    RootNoFaultsIff(roots.taskOutput, []);
    NeedZeroIff(EntriesOf(roots.session), sessionMaxAge);
    NeedZeroIff(EntriesOf(roots.taskOutput), taskLogMaxAge);
    WantedNothing(sessionMaxAge);
    WantedNothing(taskLogMaxAge);
  }

  lemma WantedNothing(maxAge: nat)
    ensures WantedIn([], maxAge) == []
  {
  }

  lemma {:induction false} CleanStays(roots: Roots, sessionMaxAge: nat, taskLogMaxAge: nat, budget: nat, n: nat)
    requires roots.Valid() && RootNoFaults(roots.session) && RootNoFaults(roots.taskOutput)
    requires Clean(roots, sessionMaxAge, taskLogMaxAge)
    ensures GcTicks(roots, sessionMaxAge, taskLogMaxAge, budget, n) == roots
    decreases n
  {
    if n > 0 {
      hide PruneRoot, Tick, WantedIn, CountIn, NoFaultsIn, NoFaults, Clean, WithEntries, EntriesOf, RootNoFaults;
      CleanIff(roots, sessionMaxAge, taskLogMaxAge);
      RootNoFaultsIff(roots.session, EntriesOf(roots.session));
      RootNoFaultsIff(roots.taskOutput, EntriesOf(roots.taskOutput));
      WantedIsFixed(EntriesOf(roots.session), sessionMaxAge, budget);
      PruneRootIsTick(roots.session, sessionMaxAge, budget);
      var left := SatSub(budget, CountIn(EntriesOf(roots.session)));
      WantedIsFixed(EntriesOf(roots.taskOutput), taskLogMaxAge, left);
      PruneRootIsTick(roots.taskOutput, taskLogMaxAge, left);
      CleanStays(roots, sessionMaxAge, taskLogMaxAge, budget, n - 1);
    }
  }

  /** A budget of at least the need clears both roots within as many ticks as there are entries,
      and later ticks leave them so. */
  lemma {:induction false} NeededBudgetSuffices(roots: Roots, sessionMaxAge: nat, taskLogMaxAge: nat, budget: nat, n: nat)
    requires roots.Valid() && RootNoFaults(roots.session) && RootNoFaults(roots.taskOutput)
    requires GcNeed(roots, sessionMaxAge, taskLogMaxAge) <= budget && GcCount(roots) <= n
    ensures GcTicks(roots, sessionMaxAge, taskLogMaxAge, budget, n) == WantedRoots(roots, sessionMaxAge, taskLogMaxAge)
    decreases n
  {
    hide PruneRoot, GcTick, GcNeed, GcCount, WantedRoots, RootNoFaults;
    GcTickNeed(roots, sessionMaxAge, taskLogMaxAge, budget);
    var after := GcTick(roots, sessionMaxAge, taskLogMaxAge, budget);
    if GcCount(after) == GcCount(roots) {
      CleanStays(roots, sessionMaxAge, taskLogMaxAge, budget, n);
    } else {
      NeededBudgetSuffices(after, sessionMaxAge, taskLogMaxAge, budget, n - 1);
    }
  }

  lemma {:induction false} TicksNeed(roots: Roots, sessionMaxAge: nat, taskLogMaxAge: nat, budget: nat, n: nat)
    requires roots.Valid() && RootNoFaults(roots.session) && RootNoFaults(roots.taskOutput)
    ensures var after := GcTicks(roots, sessionMaxAge, taskLogMaxAge, budget, n);
            && RootNoFaults(after.session) && RootNoFaults(after.taskOutput)
            && WantedRoots(after, sessionMaxAge, taskLogMaxAge) == WantedRoots(roots, sessionMaxAge, taskLogMaxAge)
            && Max(budget, GcNeed(after, sessionMaxAge, taskLogMaxAge)) == Max(budget, GcNeed(roots, sessionMaxAge, taskLogMaxAge))
    decreases n
  {
    if n > 0 {
      hide PruneRoot, GcTick, GcNeed, GcCount, WantedRoots, RootNoFaults;
      GcTickNeed(roots, sessionMaxAge, taskLogMaxAge, budget);
      TicksNeed(GcTick(roots, sessionMaxAge, taskLogMaxAge, budget), sessionMaxAge, taskLogMaxAge, budget, n - 1);
    }
  }

  /** The notice of an exhausted budget promises that what remains is retried on a later tick.
      Without failures the retries reach exactly the wanted trees, and within as many ticks as
      there are entries, if and only if the budget covers the need; with less they never do. */
  lemma RetriesSucceedIff(roots: Roots, sessionMaxAge: nat, taskLogMaxAge: nat, budget: nat)
    requires roots.Valid() && RootNoFaults(roots.session) && RootNoFaults(roots.taskOutput)
    ensures (exists n :: GcTicks(roots, sessionMaxAge, taskLogMaxAge, budget, n) == WantedRoots(roots, sessionMaxAge, taskLogMaxAge))
       <==> GcNeed(roots, sessionMaxAge, taskLogMaxAge) <= budget
    ensures GcNeed(roots, sessionMaxAge, taskLogMaxAge) <= budget ==>
              forall n :: n >= GcCount(roots) ==>
                GcTicks(roots, sessionMaxAge, taskLogMaxAge, budget, n) == WantedRoots(roots, sessionMaxAge, taskLogMaxAge)
  {
    hide GcTicks, GcNeed, GcCount, WantedRoots, RootNoFaults;
    if GcNeed(roots, sessionMaxAge, taskLogMaxAge) <= budget {
      forall n: nat | n >= GcCount(roots)
        ensures GcTicks(roots, sessionMaxAge, taskLogMaxAge, budget, n) == WantedRoots(roots, sessionMaxAge, taskLogMaxAge)
      {
        NeededBudgetSuffices(roots, sessionMaxAge, taskLogMaxAge, budget, n);
      }
      var enough := GcCount(roots);
      assert GcTicks(roots, sessionMaxAge, taskLogMaxAge, budget, enough) == WantedRoots(roots, sessionMaxAge, taskLogMaxAge);
    }
    forall n: nat | GcTicks(roots, sessionMaxAge, taskLogMaxAge, budget, n) == WantedRoots(roots, sessionMaxAge, taskLogMaxAge)
      ensures GcNeed(roots, sessionMaxAge, taskLogMaxAge) <= budget
    {
      TicksNeed(roots, sessionMaxAge, taskLogMaxAge, budget, n);
      CleanIff(GcTicks(roots, sessionMaxAge, taskLogMaxAge, budget, n), sessionMaxAge, taskLogMaxAge);
    }
  }

  lemma {:induction false} FixedForEver(roots: Roots, sessionMaxAge: nat, taskLogMaxAge: nat, budget: nat, n: nat)
    requires roots.Valid() && GcTick(roots, sessionMaxAge, taskLogMaxAge, budget) == roots
    ensures GcTicks(roots, sessionMaxAge, taskLogMaxAge, budget, n) == roots
    decreases n
  {
    if n > 0 { FixedForEver(roots, sessionMaxAge, taskLogMaxAge, budget, n - 1); }
  }

  function StaleFile(maxAge: nat, undeletable: bool): Entry {
    Entry("stale", false, Leaf(Some(maxAge + 1), undeletable))
  }

  function FreshFile(maxAge: nat): Entry {
    Entry("fresh", false, Leaf(Some(maxAge), false))
  }

  function SessionRoot(es: seq<Entry>): Roots {
    Roots(Some(Dir(false, false, es)), None)
  }

  /** Small fronts that keep a stale file for ever: a fresh file or one that cannot be deleted
      with a budget of one, and a directory around a fresh file with a budget of two. One unit
      more and the stale file goes. */
  lemma StarvingFronts(maxAge: nat, n: nat)
    ensures forall front | front in [FreshFile(maxAge), StaleFile(maxAge, true)] ::
              var roots := SessionRoot([front, StaleFile(maxAge, false)]);
              && GcTicks(roots, maxAge, maxAge, 1, n) == roots
              && GcTick(roots, maxAge, maxAge, 2) == SessionRoot([front])
    ensures var front := Entry("dir", false, Dir(false, false, [FreshFile(maxAge)]));
            var roots := SessionRoot([front, StaleFile(maxAge, false)]);
            && GcTicks(roots, maxAge, maxAge, 2, n) == roots
            && GcTick(roots, maxAge, maxAge, 3) == SessionRoot([front])
  {
    forall front | front in [FreshFile(maxAge), StaleFile(maxAge, true)]
      ensures var roots := SessionRoot([front, StaleFile(maxAge, false)]);
              && GcTicks(roots, maxAge, maxAge, 1, n) == roots
              && GcTick(roots, maxAge, maxAge, 2) == SessionRoot([front])
    {
      var roots := SessionRoot([front, StaleFile(maxAge, false)]);
      TwoEntries(front, maxAge, 1);
      TwoEntries(front, maxAge, 2);
      FixedForEver(roots, maxAge, maxAge, 1, n);
    }
    var front := Entry("dir", false, Dir(false, false, [FreshFile(maxAge)]));
    FreshDir(maxAge, 1);
    FreshDir(maxAge, 2);
    TwoEntries(front, maxAge, 2);
    TwoEntries(front, maxAge, 3);
    FixedForEver(SessionRoot([front, StaleFile(maxAge, false)]), maxAge, maxAge, 2, n);
  }

  lemma TwoEntries(front: Entry, maxAge: nat, budget: nat)
    requires budget > 0 && !front.broken
    requires PruneEntry(front, maxAge, budget - 1).node == Some(front.node) && PruneEntry(front, maxAge, budget - 1).budget <= 1
    ensures var es := [front, StaleFile(maxAge, false)];
            Tick(es, maxAge, budget) == if PruneEntry(front, maxAge, budget - 1).budget == 0 then es else [front]
  {
    hide PruneEntries;
    var es := [front, StaleFile(maxAge, false)];
    assert es[0..] == es && es[2..] == [];
    ListingAt(es, 0, maxAge, budget);
    ListingAt(es, 1, maxAge, PruneEntry(front, maxAge, budget - 1).budget);
    ListingAt(es, 2, maxAge, 0);
    assert front.(node := front.node) == front && [front] + es[1..] == es;
  }

  lemma FreshDir(maxAge: nat, budget: nat)
    requires budget > 0
    ensures var e := Entry("dir", false, Dir(false, false, [FreshFile(maxAge)]));
            PruneEntry(e, maxAge, budget) == Pruned(Some(e.node), budget - 1, false)
  {
    var es := [FreshFile(maxAge)];
    assert es[0..] == es && es[1..] == [];
    ListingAt(es, 0, maxAge, budget);
    ListingAt(es, 1, maxAge, budget - 1);
    assert [es[0].(node := es[0].node)] + [] == es;
    assert PruneEntries(es, maxAge, budget) == Listing(es, budget - 1, false, true);
  }
}
