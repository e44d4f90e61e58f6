/**
 MVCC savepoints: layers of child transactions under one root, and the proof that they behave as a stack of named
 snapshots whose commit publishes everything or nothing.
 */
module Savepoints {
  import opened Wrappers
  import opened Bytes

  const MAX_LAYERS := 32

  type Store = map<Data, Data>

  /** A write set: None marks a deleted key. */
  type Writes = map<Data, Option<Data>>

  function Overlay(s: Store, w: Writes): Store {
    map k | k in s.Keys + w.Keys && (k in w ==> w[k].Some?) :: if k in w then w[k].value else s[k]
  }

  function Get(s: Store, k: Data): Option<Data> { if k in s then Some(s[k]) else None }

  /** Every written key has its written value or is gone, and every other key is as before. */
  ghost predicate Wrote(s: Store, w: Writes, after: Store) {
    forall k :: Get(after, k) == if k in w then w[k] else Get(s, k)
  }

  lemma OverlayMeans(s: Store, w: Writes)
    ensures forall k :: k in Overlay(s, w) <==> if k in w then w[k].Some? else k in s
    ensures forall k :: k in Overlay(s, w) ==> Overlay(s, w)[k] == if k in w then w[k].value else s[k]
    ensures Wrote(s, w, Overlay(s, w))
  {
  }

  /** Committing a child into its parent and reading the parent is reading through the child. */
  lemma OverlayMerge(s: Store, a: Writes, b: Writes)
    ensures Overlay(Overlay(s, a), b) == Overlay(s, a + b)
  {
  }

  /** An open transaction. A root reads the snapshot it began with, a child reads through its parent. */
  datatype Txn = Txn(parent: Option<nat>, snapshot: Store, writes: Writes)

  /** savepointLayer; an empty name is an anonymous boundary. */
  datatype Layer = Layer(name: string, tx: nat, parent: nat)

  type Txns = map<nat, Txn>

  predicate Linked(txns: Txns) {
    forall id :: id in txns && txns[id].parent.Some? ==> txns[id].parent.value < id && txns[id].parent.value in txns
  }

  /** What a transaction sees, following its parents. */
  function Read(txns: Txns, id: nat): Store
    requires Linked(txns) && id in txns
    decreases id
  {
    var t := txns[id];
    Overlay(if t.parent.Some? then Read(txns, t.parent.value) else t.snapshot, t.writes)
  }

  function TxAt(root: nat, layers: seq<Layer>, i: nat): nat
    requires i <= |layers|
  {
    if i == 0 then root else layers[i - 1].tx
  }

  /** Layer i is an open child of the transaction below it. */
  predicate LayerOpen(txns: Txns, root: nat, layers: seq<Layer>, i: nat)
    requires i < |layers|
  {
    && layers[i].tx in txns && txns[layers[i].tx].parent == Some(layers[i].parent)
    && layers[i].parent == TxAt(root, layers, i) && root <= layers[i].parent
  }

  predicate Owned(root: nat, layers: seq<Layer>, id: nat) {
    id == root || exists i :: 0 <= i < |layers| && layers[i].tx == id
  }

  /** The open transactions are exactly the root and the layers, each layer a child of the one below. */
  ghost predicate Chain(txns: Txns, root: nat, layers: seq<Layer>) {
    && Linked(txns)
    && root in txns && txns[root].parent.None?
    && (forall i :: 0 <= i < |layers| ==> LayerOpen(txns, root, layers, i))
    && (forall id :: id in txns ==> Owned(root, layers, id))
  }

  lemma {:induction false} TxIncreases(txns: Txns, root: nat, layers: seq<Layer>, i: nat, j: nat)
    requires Chain(txns, root, layers) && i < j <= |layers|
    ensures TxAt(root, layers, i) < TxAt(root, layers, j)
    decreases j
  {
    assert LayerOpen(txns, root, layers, j - 1);
    if i < j - 1 { TxIncreases(txns, root, layers, i, j - 1); }
  }

  // ----- the stack of named snapshots --------------------------------------------------------

  datatype Mark = Mark(name: string, view: Store)

  datatype Stack = Stack(view: Store, marks: seq<Mark>)

  function StackOf(txns: Txns, root: nat, layers: seq<Layer>): Stack
    requires Chain(txns, root, layers)
  {
    TopIsOpen(txns, root, layers);
    Stack(Read(txns, TxAt(root, layers, |layers|)),
          seq(|layers|, i requires 0 <= i < |layers| =>
            (ParentIsOpen(txns, root, layers, i); Mark(layers[i].name, Read(txns, layers[i].parent)))))
  }

  predicate Named(fold: string -> string, m: string, name: string) { m != "" && fold(m) == fold(name) }

  /** The latest mark with a name, case folded. */
  ghost predicate IsLatest(fold: string -> string, marks: seq<Mark>, name: string, i: nat) {
    i < |marks| && Named(fold, marks[i].name, name) && forall j :: i < j < |marks| ==> !Named(fold, marks[j].name, name)
  }

  ghost predicate Missing(fold: string -> string, marks: seq<Mark>, name: string) {
    forall j :: 0 <= j < |marks| ==> !Named(fold, marks[j].name, name)
  }

  function Forget(fold: string -> string, marks: seq<Mark>, name: string): seq<Mark> {
    seq(|marks|, i requires 0 <= i < |marks| =>
      if Named(fold, marks[i].name, name) then marks[i].(name := "") else marks[i])
  }

  // ----- chains under change -----------------------------------------------------------------

  /** Reading below a transaction is not affected by what happens at or above it. */
  lemma {:induction false} ReadBelow(a: Txns, b: Txns, id: nat)
    requires Linked(a) && Linked(b) && id in a && id in b
    requires forall k :: k <= id ==> (k in a <==> k in b) && (k in a ==> a[k] == b[k])
    ensures Read(a, id) == Read(b, id)
    decreases id
  {
    if a[id].parent.Some? { ReadBelow(a, b, a[id].parent.value); }
  }

  /** A fresh child of the innermost transaction sees what it sees. */
  lemma PushLayer(txns: Txns, root: nat, layers: seq<Layer>, name: string, id: nat)
    requires Chain(txns, root, layers) && forall k :: k in txns ==> k < id
    ensures var top := TxAt(root, layers, |layers|);
            var after := txns[id := Txn(Some(top), map[], map[])];
            var more := layers + [Layer(name, id, top)];
            && Chain(after, root, more)
            && StackOf(after, root, more) ==
               Stack(StackOf(txns, root, layers).view,
                 StackOf(txns, root, layers).marks + [Mark(name, StackOf(txns, root, layers).view)])
  {
    var top := TxAt(root, layers, |layers|);
    TopIsOpen(txns, root, layers);
    var after := txns[id := Txn(Some(top), map[], map[])];
    var more := layers + [Layer(name, id, top)];
    PushedChain(txns, root, layers, name, id);
    forall k | k in txns ensures Read(after, k) == Read(txns, k) { ReadBelow(after, txns, k); }
    assert Overlay(Read(txns, top), map[]) == Read(txns, top);
    var was, now := StackOf(txns, root, layers), StackOf(after, root, more);
    forall i | 0 <= i < |layers| ensures now.marks[i] == was.marks[i] {
      assert more[i] == layers[i];
      ParentIsOpen(txns, root, layers, i);
    }
    assert now.marks == was.marks + [Mark(name, was.view)];
  }

  lemma TopIsOpen(txns: Txns, root: nat, layers: seq<Layer>)
    requires Chain(txns, root, layers)
    ensures TxAt(root, layers, |layers|) in txns && root <= TxAt(root, layers, |layers|)
  {
    if layers != [] {
      TxIncreases(txns, root, layers, 0, |layers|);
      ParentIsOpen(txns, root, layers, |layers| - 1);
    }
  }

  lemma ParentIsOpen(txns: Txns, root: nat, layers: seq<Layer>, i: nat)
    requires Chain(txns, root, layers) && i < |layers|
    ensures layers[i].tx in txns && layers[i].parent in txns && layers[i].parent < layers[i].tx
    ensures layers[i].parent == TxAt(root, layers, i) && root <= layers[i].parent
  {
    assert LayerOpen(txns, root, layers, i);
  }

  lemma PushedChain(txns: Txns, root: nat, layers: seq<Layer>, name: string, id: nat)
    requires Chain(txns, root, layers) && forall k :: k in txns ==> k < id
    ensures var top := TxAt(root, layers, |layers|);
            Chain(txns[id := Txn(Some(top), map[], map[])], root, layers + [Layer(name, id, top)])
  {
    var top := TxAt(root, layers, |layers|);
    TopIsOpen(txns, root, layers);
    var after := txns[id := Txn(Some(top), map[], map[])];
    var more := layers + [Layer(name, id, top)];
    forall i | 0 <= i < |more| ensures LayerOpen(after, root, more, i) {
      if i < |layers| {
        assert more[i] == layers[i] && LayerOpen(txns, root, layers, i);
        assert TxAt(root, more, i) == TxAt(root, layers, i);
      }
    }
    forall k | k in after ensures Owned(root, more, k) {
      if k == id {
        assert more[|layers|].tx == k;
      } else if k != root {
        assert Owned(root, layers, k);
        var i :| 0 <= i < |layers| && layers[i].tx == k;
        assert more[i].tx == k;
      }
    }
  }

  /** The transactions left after the layers from i on have been rolled back. */
  function Below(txns: Txns, layers: seq<Layer>, i: nat): Txns
    requires i <= |layers|
  {
    map id | id in txns && forall j :: i <= j < |layers| ==> layers[j].tx != id :: txns[id]
  }

  lemma CutChain(txns: Txns, root: nat, layers: seq<Layer>, i: nat)
    requires Chain(txns, root, layers) && i <= |layers|
    ensures Chain(Below(txns, layers, i), root, layers[..i])
  {
    var after, kept := Below(txns, layers, i), layers[..i];
    forall j | i <= j < |layers| ensures layers[j].tx != root { TxIncreases(txns, root, layers, 0, j + 1); }
    forall k, j | 0 <= k < i <= j < |layers| ensures layers[k].tx != layers[j].tx {
      TxIncreases(txns, root, layers, k + 1, j + 1);
    }
    forall id | id in after ensures Owned(root, kept, id) {
      assert Owned(root, layers, id);
      if id != root {
        var k :| 0 <= k < |layers| && layers[k].tx == id;
        assert kept[k].tx == id;
      }
    }
    forall k | 0 <= k < i ensures LayerOpen(after, root, kept, k) && layers[k].tx in after {
      assert LayerOpen(txns, root, layers, k);
      assert kept[k] == layers[k] && TxAt(root, kept, k) == TxAt(root, layers, k);
    }
    CutLinked(txns, root, layers, i);
  }

  lemma CutLinked(txns: Txns, root: nat, layers: seq<Layer>, i: nat)
    requires Chain(txns, root, layers) && i <= |layers|
    requires root in Below(txns, layers, i) && forall k :: 0 <= k < i ==> layers[k].tx in Below(txns, layers, i)
    ensures Linked(Below(txns, layers, i))
  {
    var after := Below(txns, layers, i);
    forall id | id in after && after[id].parent.Some?
      ensures after[id].parent.value < id && after[id].parent.value in after
    {
      assert Owned(root, layers, id);
      var k :| 0 <= k < |layers| && layers[k].tx == id;
      assert LayerOpen(txns, root, layers, k);
      assert k < i;
      if k > 0 { assert layers[k - 1].tx in after; }
    }
  }

  /** Rolling layers back restores the view of the lowest of them and keeps the marks below it. */
  lemma CutStack(txns: Txns, root: nat, layers: seq<Layer>, i: nat)
    requires Chain(txns, root, layers) && i <= |layers|
    ensures Chain(Below(txns, layers, i), root, layers[..i])
    ensures var was := StackOf(txns, root, layers);
            StackOf(Below(txns, layers, i), root, layers[..i]) == Stack(if i < |layers| then was.marks[i].view
              else was.view, was.marks[..i])
  {
    CutChain(txns, root, layers, i);
    var after, kept := Below(txns, layers, i), layers[..i];
    forall id | id in after ensures Read(after, id) == Read(txns, id) { ReadKept(txns, root, layers, i, id); }
    var was, now := StackOf(txns, root, layers), StackOf(after, root, kept);
    TopIsOpen(after, root, kept);
    assert TxAt(root, kept, i) == TxAt(root, layers, i);
    if i < |layers| { ParentIsOpen(txns, root, layers, i); }
    forall k | 0 <= k < i ensures now.marks[k] == was.marks[k] {
      assert kept[k] == layers[k];
      ParentIsOpen(after, root, kept, k);
    }
    assert now.marks == was.marks[..i];
  }

  lemma {:induction false} ReadKept(txns: Txns, root: nat, layers: seq<Layer>, i: nat, id: nat)
    requires Chain(txns, root, layers) && i <= |layers| && id in Below(txns, layers, i)
    ensures Chain(Below(txns, layers, i), root, layers[..i])
    ensures Read(Below(txns, layers, i), id) == Read(txns, id)
    decreases id
  {
    CutChain(txns, root, layers, i);
    var after := Below(txns, layers, i);
    if txns[id].parent.Some? {
      assert after[id].parent == txns[id].parent;
      ReadKept(txns, root, layers, i, txns[id].parent.value);
    }
  }

  /** A write goes to the innermost transaction: the view changes, no snapshot does. */
  lemma WriteTop(txns: Txns, root: nat, layers: seq<Layer>, writes: Writes)
    requires Chain(txns, root, layers)
    ensures var top := TxAt(root, layers, |layers|);
            && top in txns
            && var after := txns[top := txns[top].(writes := txns[top].writes + writes)];
               && Chain(after, root, layers)
               && StackOf(after, root, layers)
                 == StackOf(txns, root, layers).(view := Overlay(StackOf(txns, root, layers).view, writes))
  {
    var top := TxAt(root, layers, |layers|);
    TopIsOpen(txns, root, layers);
    var after := txns[top := txns[top].(writes := txns[top].writes + writes)];
    SameShape(txns, after, root, layers);
    var was, now := StackOf(txns, root, layers), StackOf(after, root, layers);
    forall i | 0 <= i < |layers| ensures now.marks[i] == was.marks[i] {
      ParentIsOpen(txns, root, layers, i);
      TxIncreases(txns, root, layers, i, |layers|);
      ReadBelow(after, txns, layers[i].parent);
    }
    var t := txns[top];
    if t.parent.Some? { ReadBelow(after, txns, t.parent.value); }
    OverlayMerge(if t.parent.Some? then Read(txns, t.parent.value) else t.snapshot, t.writes, writes);
  }

  /** Changing write sets keeps the chain. */
  lemma SameShape(a: Txns, b: Txns, root: nat, layers: seq<Layer>)
    requires Chain(a, root, layers) && a.Keys == b.Keys && forall id :: id in a ==> a[id].parent == b[id].parent
    ensures Chain(b, root, layers)
  {
    forall i | 0 <= i < |layers| ensures LayerOpen(b, root, layers, i) { assert LayerOpen(a, root, layers, i); }
  }

  /** Renaming layers changes names only. */
  lemma Renamed(txns: Txns, root: nat, layers: seq<Layer>, other: seq<Layer>)
    requires Chain(txns, root, layers) && |other| == |layers|
    requires forall i :: 0 <= i < |layers| ==> other[i].tx == layers[i].tx && other[i].parent == layers[i].parent
    ensures Chain(txns, root, other) && StackOf(txns, root, other).view == StackOf(txns, root, layers).view
    ensures forall i :: 0 <= i < |layers| ==>
              StackOf(txns, root, other).marks[i] == Mark(other[i].name, StackOf(txns, root, layers).marks[i].view)
  {
    forall i | 0 <= i < |layers| ensures LayerOpen(txns, root, other, i) {
      assert LayerOpen(txns, root, layers, i);
      assert TxAt(root, other, i) == TxAt(root, layers, i);
    }
    forall id | id in txns ensures Owned(root, other, id) {
      assert Owned(root, layers, id);
      if id != root {
        var i :| 0 <= i < |layers| && layers[i].tx == id;
        assert other[i].tx == id;
      }
    }
    assert TxAt(root, other, |layers|) == TxAt(root, layers, |layers|);
  }

  /** The writes of the root and of the first i layers, the later ones winning. */
  function Combined(txns: Txns, root: nat, layers: seq<Layer>, i: nat): Writes
    requires Chain(txns, root, layers) && i <= |layers|
  {
    if i == 0 then txns[root].writes else
      ParentIsOpen(txns, root, layers, i - 1);
      Combined(txns, root, layers, i - 1) + txns[layers[i - 1].tx].writes
  }

  /** The view is the root's snapshot under everything the layers wrote. */
  lemma {:induction false} ViewIsCombined(txns: Txns, root: nat, layers: seq<Layer>, i: nat)
    requires Chain(txns, root, layers) && i <= |layers|
    ensures TxAt(root, layers, i) in txns
    ensures Read(txns, TxAt(root, layers, i)) == Overlay(txns[root].snapshot, Combined(txns, root, layers, i))
    decreases i
  {
    if i > 0 {
      ViewIsCombined(txns, root, layers, i - 1);
      assert LayerOpen(txns, root, layers, i - 1);
      OverlayMerge(txns[root].snapshot, Combined(txns, root, layers, i - 1), txns[layers[i - 1].tx].writes);
    }
  }

  /** What the root (i = 0) or layer i - 1 has written itself. */
  function WritesOf(txns: Txns, root: nat, layers: seq<Layer>, i: nat): Writes
    requires i <= |layers|
  {
    if TxAt(root, layers, i) in txns then txns[TxAt(root, layers, i)].writes else map[]
  }

  /** Layer i is the last of the first n + 1 that wrote k. */
  ghost predicate LastWriter(txns: Txns, root: nat, layers: seq<Layer>, n: nat, k: Data, i: nat) {
    i <= n <= |layers| && k in WritesOf(txns, root, layers, i)
    && forall j :: i < j <= n ==> k !in WritesOf(txns, root, layers, j)
  }

  /** A store holds at k what the last layer that wrote k wrote, and what `before` holds when none did. */
  ghost predicate LastWins(txns: Txns, root: nat, layers: seq<Layer>, n: nat, before: Store, after: Store, k: Data)
    requires n <= |layers|
  {
    || (exists i :: 0 <= i <= n && LastWriter(txns, root, layers, n, k, i)
                    && Get(after, k) == WritesOf(txns, root, layers, i)[k])
    || ((forall j :: 0 <= j <= n ==> k !in WritesOf(txns, root, layers, j)) && Get(after, k) == Get(before, k))
  }

  lemma {:induction false} CombinedIsLast(txns: Txns, root: nat, layers: seq<Layer>, n: nat, k: Data) returns (i: nat)
    requires Chain(txns, root, layers) && n <= |layers|
    ensures k in Combined(txns, root, layers, n) ==>
              LastWriter(txns, root, layers, n, k, i)
              && Combined(txns, root, layers, n)[k] == WritesOf(txns, root, layers, i)[k]
    ensures k !in Combined(txns, root, layers, n) ==>
              forall j :: 0 <= j <= n ==> k !in WritesOf(txns, root, layers, j)
    decreases n
  {
    i := 0;
    if n > 0 {
      ParentIsOpen(txns, root, layers, n - 1);
      i := CombinedIsLast(txns, root, layers, n - 1, k);
      if k in WritesOf(txns, root, layers, n) { i := n; }
    }
  }

  /** Everything the layers wrote over a store: at every key the last writer wins. */
  lemma CombinedWins(txns: Txns, root: nat, layers: seq<Layer>, before: Store, k: Data)
    requires Chain(txns, root, layers)
    ensures LastWins(txns, root, layers, |layers|, before,
                     Overlay(before, Combined(txns, root, layers, |layers|)), k)
  {
    var i := CombinedIsLast(txns, root, layers, |layers|, k);
    OverlayMeans(before, Combined(txns, root, layers, |layers|));
  }

  /** What the innermost transaction reads at a key: the last layer's write of it, or the root's snapshot. */
  lemma ViewAt(txns: Txns, root: nat, layers: seq<Layer>, k: Data)
    requires Chain(txns, root, layers)
    ensures LastWins(txns, root, layers, |layers|, txns[root].snapshot, StackOf(txns, root, layers).view, k)
  {
    ViewIsCombined(txns, root, layers, |layers|);
    CombinedWins(txns, root, layers, txns[root].snapshot, k);
  }

  /** Committing the innermost layer: its writes move to its parent and it is gone. */
  function MergeTop(txns: Txns, root: nat, layers: seq<Layer>): Txns
    requires Chain(txns, root, layers) && layers != []
  {
    var n := |layers| - 1;
    ParentIsOpen(txns, root, layers, n);
    var p := layers[n].parent;
    Below(txns, layers, n)[p := txns[p].(writes := txns[p].writes + txns[layers[n].tx].writes)]
  }

  lemma {:induction false} MergeKeepsWrites(txns: Txns, root: nat, layers: seq<Layer>)
    requires Chain(txns, root, layers) && layers != []
    ensures var n, after := |layers| - 1, MergeTop(txns, root, layers);
            && Chain(after, root, layers[..n])
            && Combined(after, root, layers[..n], n) == Combined(txns, root, layers, n + 1)
            && after[root].snapshot == txns[root].snapshot
  {
    var n := |layers| - 1;
    var kept := layers[..n];
    var cut, after := Below(txns, layers, n), MergeTop(txns, root, layers);
    CutChain(txns, root, layers, n);
    ParentIsOpen(txns, root, layers, n);
    TxIncreases(txns, root, layers, n, n + 1);
    TopIsOpen(cut, root, kept);
    assert TxAt(root, kept, n) == TxAt(root, layers, n) == layers[n].parent;
    SameShape(cut, after, root, kept);
    if n > 0 {
      CombinedBelow(txns, layers, after, kept, root, n - 1);
      assert kept[n - 1] == layers[n - 1];
      MapsAssociate(Combined(txns, root, layers, n - 1), txns[layers[n - 1].tx].writes, txns[layers[n].tx].writes);
    }
  }

  lemma CommitStep(txns: Txns, root: nat, layers: seq<Layer>, j: nat)
    requires j < |layers| && Chain(txns, root, layers[..j + 1])
    ensures var after := MergeTop(txns, root, layers[..j + 1]);
            && Chain(after, root, layers[..j])
            && Combined(after, root, layers[..j], j) == Combined(txns, root, layers[..j + 1], j + 1)
  {
    MergeKeepsWrites(txns, root, layers[..j + 1]);
    assert layers[..j + 1][..j] == layers[..j];
  }

  /** The first j layers are left, and together they have written everything. */
  ghost predicate MergedTo(txns: Txns, root: nat, layers: seq<Layer>, j: nat, all: Writes) {
    j <= |layers| && Chain(txns, root, layers[..j]) && Combined(txns, root, layers[..j], j) == all
  }

  lemma MergeStart(txns: Txns, root: nat, layers: seq<Layer>)
    requires Chain(txns, root, layers)
    ensures MergedTo(txns, root, layers, |layers|, Combined(txns, root, layers, |layers|))
  {
    assert layers[..|layers|] == layers;
  }

  lemma MergeEnd(txns: Txns, root: nat, layers: seq<Layer>, all: Writes)
    requires MergedTo(txns, root, layers, 0, all)
    ensures Chain(txns, root, []) && txns[root].writes == all
    ensures forall id :: id in txns ==> Owned(root, layers, id)
  {
    OwnedByAll(txns, root, layers, 0);
    assert layers[..0] == [];
  }

  lemma MapsAssociate(a: Writes, b: Writes, c: Writes)
    ensures a + (b + c) == (a + b) + c
  {
  }

  lemma {:induction false} CombinedBelow(txns: Txns, layers: seq<Layer>, after: Txns, kept: seq<Layer>, root: nat,
                                         i: nat)
    requires Chain(txns, root, layers) && layers != [] && kept == layers[..|layers| - 1] && i < |kept|
    requires Chain(after, root, kept) && after == MergeTop(txns, root, layers)
    ensures Combined(after, root, kept, i) == Combined(txns, root, layers, i)
    decreases i
  {
    var n := |layers| - 1;
    ParentIsOpen(txns, root, layers, n);
    TxIncreases(txns, root, layers, i, n);
    if i > 0 {
      CombinedBelow(txns, layers, after, kept, root, i - 1);
      ParentIsOpen(after, root, kept, i - 1);
      assert kept[i - 1] == layers[i - 1];
    } else {
      assert root in after;
    }
  }

  // ----- the session -------------------------------------------------------------------------

  datatype Outcome = Done | NoTransaction | NotFound | LayerLimit | Failed

  lemma BelowStep(txns: Txns, layers: seq<Layer>, i: nat)
    requires 0 < i <= |layers|
    ensures Below(txns, layers, i - 1) == Below(txns, layers, i) - {layers[i - 1].tx}
  {
  }

  lemma BelowNothing(txns: Txns, layers: seq<Layer>)
    ensures Below(txns, layers, |layers|) == txns
  {
  }

  function Anonymize(fold: string -> string, layers: seq<Layer>, name: string): (r: seq<Layer>)
    ensures |r| == |layers|
  {
    seq(|layers|, i requires 0 <= i < |layers| =>
      if Named(fold, layers[i].name, name) then layers[i].(name := "") else layers[i])
  }

  lemma Anonymized(txns: Txns, root: nat, fold: string -> string, layers: seq<Layer>, name: string)
    requires Chain(txns, root, layers)
    ensures var renamed := Anonymize(fold, layers, name);
            && Chain(txns, root, renamed) && TxAt(root, renamed, |renamed|) == TxAt(root, layers, |layers|)
            && StackOf(txns, root, renamed) ==
               Stack(StackOf(txns, root, layers).view, Forget(fold, StackOf(txns, root, layers).marks, name))
  {
    var renamed := Anonymize(fold, layers, name);
    Renamed(txns, root, layers, renamed);
    assert StackOf(txns, root, renamed).marks == Forget(fold, StackOf(txns, root, layers).marks, name);
  }

  lemma ReleasedOne(txns: Txns, root: nat, layers: seq<Layer>, i: nat)
    requires Chain(txns, root, layers) && i < |layers|
    ensures var renamed := layers[i := layers[i].(name := "")];
            && Chain(txns, root, renamed) && TxAt(root, renamed, |renamed|) == TxAt(root, layers, |layers|)
            && renamed[0].parent == layers[0].parent
            && StackOf(txns, root, renamed) ==
               Stack(StackOf(txns, root, layers).view,
                     StackOf(txns, root, layers).marks[i := Mark("", StackOf(txns, root, layers).marks[i].view)])
  {
    var renamed := layers[i := layers[i].(name := "")];
    Renamed(txns, root, layers, renamed);
    assert StackOf(txns, root, renamed).marks
      == StackOf(txns, root, layers).marks[i := Mark("", StackOf(txns, root, layers).marks[i].view)];
  }

  lemma RootOf(txns: Txns, root: nat, layers: seq<Layer>)
    requires Chain(txns, root, layers) && layers != []
    ensures layers[0].parent == root
  {
    assert LayerOpen(txns, root, layers, 0);
  }

  class Session {
    const fold: string -> string
    var base: Store
    var txns: Txns
    var nextId: nat
    var transaction: Option<nat>
    var savepoints: seq<Layer>

    constructor (folding: string -> string, published: Store)
      ensures Valid() && transaction.None? && base == published && fold == folding
    {
      fold, base, txns, nextId, transaction, savepoints := folding, published, map[], 0, None, [];
    }

    /** outermostTransaction. */
    function Root(): nat
      reads this
      requires transaction.Some?
    {
      if savepoints != [] then savepoints[0].parent else transaction.value
    }

    /** The session references the innermost live transaction, and no other transaction is left open. */
    ghost predicate Valid()
      reads this
    {
      && (transaction.None? ==> savepoints == [] && txns == map[])
      && (transaction.Some? ==>
            && Chain(txns, Root(), savepoints) && |savepoints| <= MAX_LAYERS
            && transaction.value == TxAt(Root(), savepoints, |savepoints|)
            && forall id :: id in txns ==> id < nextId)
    }

    /** What the transaction sees and which snapshots it can return to. */
    ghost function Contents(): Stack
      reads this
      requires Valid() && transaction.Some?
    {
      StackOf(txns, Root(), savepoints)
    }

    ghost function Snapshot(): Store
      reads this
      requires Valid() && transaction.Some?
    {
      txns[Root()].snapshot
    }

    method Begin()
      requires Valid() && transaction.None?
      modifies this
      ensures Valid() && transaction.Some? && base == old(base)
      ensures Contents() == Stack(base, []) && Snapshot() == base
    {
      var id: nat := nextId;
      var started: Txns := map[id := Txn(None, base, map[])];
      transaction, txns := Some(nextId), started;
      nextId := nextId + 1;
      assert Chain(txns, transaction.value, []);
      assert Overlay(base, map[]) == base;
    }

    method Write(writes: Writes)
      requires Valid() && transaction.Some?
      modifies this
      ensures Valid() && transaction.Some? && base == old(base) && Snapshot() == old(Snapshot())
      ensures Contents() == Step(fold, old(Contents()), Writing(writes))
      ensures Wrote(old(Contents()).view, writes, Contents().view) && Contents().marks == old(Contents()).marks
    {
      OverlayMeans(Contents().view, writes);
      WriteTop(txns, Root(), savepoints, writes);
      var top := transaction.value;
      txns := txns[top := txns[top].(writes := txns[top].writes + writes)];
    }

    /** savepointIndex: the latest layer with the name. */
    method SavepointIndex(name: string) returns (at: Option<nat>)
      requires Valid() && transaction.Some?
      ensures at.None? ==> Missing(fold, Contents().marks, name)
      ensures at.Some? ==> IsLatest(fold, Contents().marks, name, at.value)
    {
      var i: nat := |savepoints|;
      while i > 0
        invariant i <= |savepoints|
        invariant forall j :: i <= j < |savepoints| ==> !Named(fold, Contents().marks[j].name, name)
      {
        i := i - 1;
        if Named(fold, savepoints[i].name, name) { return Some(i); }
      }
      return None;
    }

    /** SAVEPOINT: a new mark at the current view; older marks of that name can no longer be reached. */
    method CreateSavepoint(name: string, childOpens: bool) returns (r: Outcome)
      requires Valid()
      modifies this
      ensures Valid() && base == old(base)
      ensures r == NoTransaction <==> old(transaction).None?
      ensures r == LayerLimit <==> old(transaction).Some? && |old(savepoints)| >= MAX_LAYERS
      ensures r == Failed <==> old(transaction).Some? && |old(savepoints)| < MAX_LAYERS && !childOpens
      ensures r != Done ==> unchanged(this)
      ensures r == Done ==>
                && transaction.Some? && Snapshot() == old(Snapshot())
                && Contents() == Step(fold, old(Contents()), Saving(name))
    {
      if transaction.None? { return NoTransaction; }
      if |savepoints| >= MAX_LAYERS { return LayerLimit; }
      if !childOpens { return Failed; }
      ghost var root := Root();
      var renamed := Anonymize(fold, savepoints, name);
      Anonymized(txns, root, fold, savepoints, name);
      PushLayer(txns, root, renamed, name, nextId);
      var parent := transaction.value;
      txns := txns[nextId := Txn(Some(parent), map[], map[])];
      savepoints := renamed + [Layer(name, nextId, parent)];
      transaction, nextId := Some(nextId), nextId + 1;
      RootOf(txns, root, savepoints);
      return Done;
    }

    /** RELEASE: the latest mark of that name loses its name; nothing else changes. */
    method ReleaseSavepoint(name: string) returns (r: Outcome, ghost i: nat)
      requires Valid() && transaction.Some?
      modifies this
      ensures Valid() && transaction.Some? && base == old(base) && Snapshot() == old(Snapshot())
      ensures r == NotFound ==> Missing(fold, old(Contents()).marks, name) && unchanged(this)
      ensures r != NotFound ==> IsLatest(fold, old(Contents()).marks, name, i)
      ensures Contents() == Step(fold, old(Contents()), Releasing(name))
    {
      var at := SavepointIndex(name);
      LatestIs(fold, Contents().marks, name, at);
      if at.None? { return NotFound, 0; }
      ReleasedOne(txns, Root(), savepoints, at.value);
      savepoints := savepoints[at.value := savepoints[at.value].(name := "")];
      return Done, at.value;
    }

    /** Rolling back the layers from i on, innermost first. */
    method Discard(i: nat)
      requires Valid() && transaction.Some? && i <= |savepoints|
      modifies this`txns
      ensures txns == Below(old(txns), savepoints, i)
    {
      BelowNothing(txns, savepoints);
      var j := |savepoints|;
      while j > i
        invariant i <= j <= |savepoints| && txns == Below(old(txns), savepoints, j)
      {
        BelowStep(old(txns), savepoints, j);
        j := j - 1;
        txns := txns - {savepoints[j].tx};
      }
    }

    /** rollbackSessionTransaction: every layer and the root are rolled back. */
    method Rollback()
      requires transaction.None? ==> savepoints == [] && txns == map[]
      requires transaction.Some? ==> forall id :: id in txns ==> Owned(Root(), savepoints, id)
      modifies this
      ensures Valid() && transaction.None? && base == old(base)
    {
      if transaction.None? { return; }
      var root := Root();
      var j: nat := |savepoints|;
      assert savepoints[..j] == savepoints;
      while j > 0
        invariant j <= |savepoints| && transaction == old(transaction) && savepoints == old(savepoints)
                  && base == old(base)
        invariant forall id :: id in txns ==> Owned(root, savepoints[..j], id)
      {
        j := j - 1;
        txns := txns - {savepoints[j].tx};
        forall id | id in txns ensures Owned(root, savepoints[..j], id) {
          assert Owned(root, savepoints[..j + 1], id);
          if id != root {
            var k :| 0 <= k < j + 1 && savepoints[..j + 1][k].tx == id;
            assert savepoints[..j][k].tx == id;
          }
        }
      }
      forall id | id in txns ensures id == root { assert Owned(root, savepoints[..0], id); }
      savepoints, transaction, txns := [], None, txns - {root};
    }

    /**
     ROLLBACK TO: the view of the mark is restored and the later marks are gone. The mark itself survives unless
     the fresh child cannot be opened; a failure to publish the restored state ends the whole transaction.
     */
    method RollbackTo(name: string, childOpens: bool, cleanupFails: bool, publishFails: bool)
      returns (r: Outcome, ghost i: nat)
      requires Valid()
      modifies this
      ensures Valid() && base == old(base)
      ensures r == NotFound ==> unchanged(this) && (transaction.Some? ==> Missing(fold, Contents().marks, name))
      ensures r != NotFound ==> old(transaction).Some? && IsLatest(fold, old(Contents()).marks, name, i)
      ensures r != NotFound && !(childOpens && !cleanupFails && publishFails) ==>
                && transaction.Some? && Snapshot() == old(Snapshot())
                && Contents() == Stack(old(Contents()).marks[i].view, old(Contents()).marks[..if childOpens then i + 1
                  else i])
      ensures r != NotFound && childOpens && !cleanupFails && publishFails ==> transaction.None?
      ensures r == Done <==> r != NotFound && childOpens && !cleanupFails && !publishFails
      ensures r == Done ==> Contents() == Step(fold, old(Contents()), Returning(name))
    {
      if transaction.None? { return NotFound, 0; }
      var at := SavepointIndex(name);
      LatestIs(fold, Contents().marks, name, at);
      if at.None? { return NotFound, 0; }
      var index := at.value;
      i := index;
      var name' := savepoints[index].name;
      CutTo(index);
      if !childOpens { return Failed, index; }
      Reopen(name');
      if cleanupFails { return Failed, index; }
      if publishFails {
        Rollback();
        return Failed, index;
      }
      return Done, index;
    }

    /** The target and the layers above it are discarded and the session falls back to the target's parent. */
    method CutTo(index: nat)
      requires Valid() && transaction.Some? && index < |savepoints|
      modifies this
      ensures Valid() && transaction.Some? && base == old(base) && Snapshot() == old(Snapshot())
              && |savepoints| == index
      ensures Contents() == Stack(old(Contents()).marks[index].view, old(Contents()).marks[..index])
    {
      ghost var root := Root();
      CutStack(txns, root, savepoints, index);
      ParentIsOpen(txns, root, savepoints, index);
      Discard(index);
      savepoints, transaction := savepoints[..index], Some(savepoints[index].parent);
      if index > 0 { RootOf(txns, root, savepoints); }
    }

    /** A named layer on a fresh child of the current transaction. */
    method Reopen(name: string)
      requires Valid() && transaction.Some? && |savepoints| < MAX_LAYERS
      modifies this
      ensures Valid() && transaction.Some? && base == old(base) && Snapshot() == old(Snapshot())
      ensures Contents() == Stack(old(Contents()).view, old(Contents()).marks + [Mark(name, old(Contents()).view)])
    {
      ghost var root := Root();
      PushLayer(txns, root, savepoints, name, nextId);
      var parent := transaction.value;
      txns := txns[nextId := Txn(Some(parent), map[], map[])];
      savepoints := savepoints + [Layer(name, nextId, parent)];
      transaction, nextId := Some(nextId), nextId + 1;
      RootOf(txns, root, savepoints);
    }

    /** The innermost of the first j + 1 layers is committed into its parent. */
    method MergeOne(root: nat, j: nat, ghost all: Writes)
      requires j < |savepoints| && MergedTo(txns, root, savepoints, j + 1, all)
      modifies this`txns
      ensures MergedTo(txns, root, savepoints, j, all)
    {
      CommitStep(txns, root, savepoints, j);
      txns := MergeTop(txns, root, savepoints[..j + 1]);
    }

    /** The layers committed into their parents, innermost first, until j are left because the next one fails. */
    method MergeDown(root: nat, failing: Option<nat>, ghost all: Writes) returns (ok: bool, ghost j: nat)
      requires MergedTo(txns, root, savepoints, |savepoints|, all)
      modifies this`txns
      ensures ok <==> (failing.None? || failing.value >= |savepoints|)
      ensures MergedTo(txns, root, savepoints, j, all) && (ok ==> j == 0)
    {
      var i := |savepoints|;
      while i > 0
        invariant 0 <= i <= |savepoints| && MergedTo(txns, root, savepoints, i, all)
        invariant failing.Some? ==> failing.value < i || failing.value >= |savepoints|
      {
        i := i - 1;
        if failing == Some(i) { return false, i + 1; }
        MergeOne(root, i, all);
      }
      return true, 0;
    }

    /** Every layer is committed into the root, unless one of them fails. */
    method MergeLayers(failing: Option<nat>) returns (ok: bool)
      requires Valid() && transaction.Some?
      modifies this`txns
      ensures ok <==> (failing.None? || failing.value >= |savepoints|)
      ensures ok ==> Chain(txns, Root(), [])
      ensures ok ==> txns[Root()].writes == Combined(old(txns), Root(), savepoints, |savepoints|)
      ensures forall id :: id in txns ==> Owned(Root(), savepoints, id)
    {
      var root := Root();
      ghost var all := Combined(txns, root, savepoints, |savepoints|);
      MergeStart(txns, root, savepoints);
      ghost var left;
      ok, left := MergeDown(root, failing, all);
      OwnedByAll(txns, root, savepoints, left);
      if ok { MergeEnd(txns, root, savepoints, all); }
    }

    /** COMMIT: every write of every layer reaches the published state at once, or none does. */
    method Commit(failing: Option<nat>, rootConflicts: bool) returns (r: Outcome)
      requires Valid()
      modifies this
      ensures Valid() && transaction.None?
      ensures old(transaction).None? ==> r == Done && base == old(base)
      ensures old(transaction).Some? ==>
                r == (if (failing.None? || failing.value >= |old(savepoints)|) && !rootConflicts then Done else Failed)
      ensures r == Failed ==> base == old(base)
      ensures r == Done && old(transaction).Some? && old(base) == old(Snapshot()) ==> base == old(Contents()).view
      ensures r == Done && old(transaction).Some? ==>
                base == Overlay(old(base), Combined(old(txns), old(Root()), old(savepoints), |old(savepoints)|))
      ensures r == Done && old(transaction).Some? ==> forall k ::
                LastWins(old(txns), old(Root()), old(savepoints), |old(savepoints)|, old(base), base, k)
    {
      if transaction.None? { return Done; }
      var root := Root();
      forall k {
        CombinedWins(txns, root, savepoints, base, k);
      }
      ViewIsCombined(txns, root, savepoints, |savepoints|);
      var ok := MergeLayers(failing);
      if !ok || rootConflicts {
        Rollback();
        return Failed;
      }
      base := Overlay(base, txns[root].writes);
      savepoints, transaction, txns := [], None, map[];
      return Done;
    }
  }

  lemma OwnedByAll(txns: Txns, root: nat, layers: seq<Layer>, j: nat)
    requires j <= |layers| && Chain(txns, root, layers[..j])
    ensures forall id :: id in txns ==> Owned(root, layers, id)
  {
    forall id | id in txns ensures Owned(root, layers, id) {
      assert Owned(root, layers[..j], id);
      if id != root {
        var k :| 0 <= k < j && layers[..j][k].tx == id;
        assert layers[k].tx == id;
      }
    }
  }

  // ----- runs of savepoint statements --------------------------------------------------------

  datatype Command = Writing(writes: Writes) | Saving(name: string) | Releasing(name: string) | Returning(name: string)

  function Latest(fold: string -> string, marks: seq<Mark>, name: string): (r: Option<nat>)
    ensures r.Some? ==> IsLatest(fold, marks, name, r.value)
    ensures r.None? ==> Missing(fold, marks, name)
  {
    if marks == [] then None
    else if Named(fold, marks[|marks| - 1].name, name) then Some(|marks| - 1)
    else Latest(fold, marks[..|marks| - 1], name)
  }

  lemma LatestIs(fold: string -> string, marks: seq<Mark>, name: string, at: Option<nat>)
    requires at.Some? ==> IsLatest(fold, marks, name, at.value)
    requires at.None? ==> Missing(fold, marks, name)
    ensures Latest(fold, marks, name) == at
  {
  }

  /** What the session methods do to the stack; a statement that fails leaves it alone. */
  function Step(fold: string -> string, s: Stack, c: Command): Stack {
    match c
    case Writing(writes) => s.(view := Overlay(s.view, writes))
    case Saving(name) => Stack(s.view, Forget(fold, s.marks, name) + [Mark(name, s.view)])
    case Releasing(name) =>
      (match Latest(fold, s.marks, name) case None => s case Some(i) =>
        s.(marks := s.marks[i := Mark("", s.marks[i].view)]))
    case Returning(name) =>
      (match Latest(fold, s.marks, name) case None => s case Some(i) => Stack(s.marks[i].view, s.marks[..i + 1]))
  }

  function Run(fold: string -> string, s: Stack, commands: seq<Command>): Stack
    decreases |commands|
  {
    if commands == [] then s else Run(fold, Step(fold, s, commands[0]), commands[1..])
  }

  /** A run takes its commands one after the other. */
  lemma {:induction false} RunContinues(fold: string -> string, s: Stack, commands: seq<Command>, last: Command)
    ensures Run(fold, s, commands + [last]) == Step(fold, Run(fold, s, commands), last)
    decreases |commands|
  {
    if commands == [] {
      assert (commands + [last])[1..] == [];
    } else {
      assert (commands + [last])[1..] == commands[1..] + [last];
      RunContinues(fold, Step(fold, s, commands[0]), commands[1..], last);
    }
  }

  /** A new mark at the current view; older marks keep their views, and their names unless it is the new one's. */
  ghost predicate Marked(fold: string -> string, s: Stack, name: string, marks: seq<Mark>) {
    && |marks| == |s.marks| + 1 && marks[|s.marks|] == Mark(name, s.view)
    && forall i :: 0 <= i < |s.marks| ==>
         && marks[i].view == s.marks[i].view
         && (marks[i].name == if fold(s.marks[i].name) == fold(name) then "" else s.marks[i].name)
  }

  /** Once a name has been reused and released, the older savepoint of that name cannot be reached any more. */
  lemma ReusedNameIsGone(fold: string -> string, s: Stack, name: string)
    requires name != ""
    ensures Step(fold, s, Saving(name)).view == s.view && Marked(fold, s, name, Step(fold, s, Saving(name)).marks)
    ensures Missing(fold, Step(fold, Step(fold, s, Saving(name)), Releasing(name)).marks, name)
  {
    var saved := Step(fold, s, Saving(name));
    LatestIs(fold, saved.marks, name, Some(|s.marks|));
  }

  /** A command that neither takes the name away nor returns to a mark below position p. */
  predicate Respects(fold: string -> string, s: Stack, c: Command, name: string, p: nat) {
    match c
    case Writing(_) => true
    case Saving(n) => fold(n) != fold(name)
    case Releasing(n) => fold(n) != fold(name)
    case Returning(n) => Latest(fold, s.marks, n).Some? ==> Latest(fold, s.marks, n).value >= p
  }

  predicate AllRespect(fold: string -> string, s: Stack, commands: seq<Command>, name: string, p: nat)
    decreases |commands|
  {
    commands == [] || (Respects(fold, s, commands[0], name, p)
      && AllRespect(fold, Step(fold, s, commands[0]), commands[1..], name, p))
  }

  ghost predicate Holds(fold: string -> string, s: Stack, name: string, p: nat, view: Store) {
    IsLatest(fold, s.marks, name, p) && s.marks[p].view == view
  }

  lemma StepHolds(fold: string -> string, s: Stack, c: Command, name: string, p: nat, view: Store)
    requires Holds(fold, s, name, p, view) && Respects(fold, s, c, name, p)
    ensures Holds(fold, Step(fold, s, c), name, p, view)
  {
  }

  lemma {:induction false} RunHolds(fold: string -> string, s: Stack, commands: seq<Command>, name: string, p: nat,
                                    view: Store)
    requires Holds(fold, s, name, p, view) && AllRespect(fold, s, commands, name, p)
    ensures Holds(fold, Run(fold, s, commands), name, p, view)
    decreases |commands|
  {
    if commands != [] {
      StepHolds(fold, s, commands[0], name, p, view);
      RunHolds(fold, Step(fold, s, commands[0]), commands[1..], name, p, view);
    }
  }

  /**
   A savepoint restores: whatever is written, saved, released or rolled back after SAVEPOINT name, ROLLBACK TO name
   brings back the view it was taken at, as long as the name is not reused and nothing returns to an older mark.
   */
  lemma SavepointRestores(fold: string -> string, s: Stack, commands: seq<Command>, name: string)
    requires name != "" && AllRespect(fold, Step(fold, s, Saving(name)), commands, name, |s.marks|)
    ensures Run(fold, Step(fold, s, Saving(name)), commands).marks != []
    ensures Step(fold, Run(fold, Step(fold, s, Saving(name)), commands), Returning(name)).view == s.view
  {
    var saved := Step(fold, s, Saving(name));
    assert Holds(fold, saved, name, |s.marks|, s.view);
    RunHolds(fold, saved, commands, name, |s.marks|, s.view);
  }
}
