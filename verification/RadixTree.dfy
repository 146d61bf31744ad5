/**
 * The shape of four-level page tables: which table or frame each entry leads to, without the bits.
 * A labelling gives every reachable table its level and the page-number prefix it serves. A table
 * has one label, so two entries never share a table.
 */
module RadixTree {
  import opened Common

  const ENTRY_COUNT: nat := 512
  const PAGE_COUNT: nat := 0x10_0000_0000

  type Tree = map<nat, seq<Option<nat>>>

  datatype Label = Label(level: nat, prefix: nat)

  type Labels = map<nat, Label>

  /** 512^n: how many pages one entry spans at level n + 1. */
  function Span(n: nat): (s: nat)
    ensures s > 0
  {
    if n == 0 then 1
    else if n == 1 then 0x200
    else if n == 2 then 0x4_0000
    else if n == 3 then 0x800_0000
    else 0x10_0000_0000
  }

  function IndexAt(level: nat, page: nat): (i: nat)
    requires 1 <= level <= 4
    ensures i < ENTRY_COUNT
  {
    page / Span(level - 1) % ENTRY_COUNT
  }

  /** Where entry i of a table leads; what is not modelled is absent. */
  function Next(tree: Tree, table: nat, i: nat): Option<nat> {
    if table in tree && i < |tree[table]| then tree[table][i] else None
  }

  function WalkFrom(tree: Tree, table: nat, level: nat, page: nat): Option<nat>
    requires 1 <= level <= 4
    decreases level
  {
    var e := Next(tree, table, IndexAt(level, page));
    if e.None? || level == 1 then e
    else WalkFrom(tree, e.value, level - 1, page)
  }

  /** What the hardware finds for a page, starting from the PML4. */
  function Walk(tree: Tree, root: nat, page: nat): Option<nat> {
    WalkFrom(tree, root, 4, page)
  }

  /** The label of the table that serves a page at a level. */
  function LabelFor(level: nat, page: nat): Label
    requires 1 <= level <= 4
  {
    Label(level, page / Span(level))
  }

  /** The label called for by entry i of a table labelled l. */
  function ChildLabel(l: Label, i: nat): Label
    requires l.level > 0
  {
    Label(l.level - 1, l.prefix * ENTRY_COUNT + i)
  }

  ghost predicate TablesFull(tree: Tree, labels: Labels) {
    forall t :: t in labels ==> t in tree && |tree[t]| == ENTRY_COUNT && 1 <= labels[t].level <= 4
  }

  /** A present entry above level 1 leads to a table with the label it calls for; an absent one's label is unused. */
  ghost predicate EntryLabelled(tree: Tree, labels: Labels, t: nat, i: nat)
    requires t in labels && labels[t].level > 0
  {
    match Next(tree, t, i)
    case Some(child) => child in labels && labels[child] == ChildLabel(labels[t], i)
    case None => ChildLabel(labels[t], i) !in labels.Values
  }

  ghost predicate Downward(tree: Tree, labels: Labels) {
    forall t, i: nat :: t in labels && 2 <= labels[t].level && i < ENTRY_COUNT ==> EntryLabelled(tree, labels, t, i)
  }

  /** Below the PML4, the label of the table one level up is in use as well. */
  ghost predicate Connected(labels: Labels) {
    forall t :: t in labels && labels[t].level < 4 ==>
      Label(labels[t].level + 1, labels[t].prefix / ENTRY_COUNT) in labels.Values
  }

  ghost predicate OneTablePerLabel(labels: Labels) {
    forall s, t :: s in labels && t in labels && labels[s] == labels[t] ==> s == t
  }

  ghost predicate WellLabelled(tree: Tree, root: nat, labels: Labels) {
    && root in labels && labels[root] == Label(4, 0)
    && TablesFull(tree, labels)
    && Downward(tree, labels)
    && Connected(labels)
    && OneTablePerLabel(labels)
  }

  /** Two entries of reachable tables that lead to the same table are the same entry. */
  lemma NoSharedTables(tree: Tree, root: nat, labels: Labels, s: nat, i: nat, t: nat, j: nat)
    requires WellLabelled(tree, root, labels)
    requires s in labels && labels[s].level >= 2 && i < ENTRY_COUNT
    requires t in labels && labels[t].level >= 2 && j < ENTRY_COUNT
    requires Next(tree, s, i).Some? && Next(tree, s, i) == Next(tree, t, j)
    ensures s == t && i == j
  {
    assert EntryLabelled(tree, labels, s, i) && EntryLabelled(tree, labels, t, j);
    assert labels[s] == labels[t];
  }

  lemma ChildServesPage(level: nat, page: nat)
    requires 2 <= level <= 4
    ensures ChildLabel(LabelFor(level, page), IndexAt(level, page)) == LabelFor(level - 1, page)
  {
  }

  /** Different pages differ in the level 1 table that serves them or in the index within it. */
  lemma PagesSplit(p: nat, q: nat)
    requires LabelFor(1, p) == LabelFor(1, q) && IndexAt(1, p) == IndexAt(1, q)
    ensures p == q
  {
  }

  function EmptyTable(): seq<Option<nat>> {
    seq(ENTRY_COUNT, _ => None)
  }

  function SetNext(tree: Tree, table: nat, i: nat, target: nat): Tree
    requires table in tree && i < |tree[table]|
  {
    tree[table := tree[table][i := Some(target)]]
  }

  /** A new empty table, linked from entry i of an existing one. */
  function LinkTable(tree: Tree, table: nat, i: nat, block: nat): Tree
    requires table in tree && i < |tree[table]| && block != table
  {
    SetNext(tree[block := EmptyTable()], table, i, block)
  }

  ghost predicate CanLink(tree: Tree, root: nat, labels: Labels, table: nat, i: nat, block: nat) {
    && WellLabelled(tree, root, labels)
    && table in labels && labels[table].level >= 2 && i < ENTRY_COUNT
    && Next(tree, table, i).None?
    && block !in labels
  }

  /** While an entry is absent, nothing below it carries a label either. */
  lemma NothingBelowAbsent(tree: Tree, root: nat, labels: Labels, table: nat, i: nat, j: nat)
    requires WellLabelled(tree, root, labels)
    requires table in labels && labels[table].level >= 3 && i < ENTRY_COUNT && Next(tree, table, i).None?
    requires j < ENTRY_COUNT
    ensures ChildLabel(ChildLabel(labels[table], i), j) !in labels.Values
  {
    assert EntryLabelled(tree, labels, table, i);
    var below := ChildLabel(ChildLabel(labels[table], i), j);
    forall c | c in labels && labels[c].level < 4 ensures labels[c] != below {
      assert Label(labels[c].level + 1, labels[c].prefix / ENTRY_COUNT) in labels.Values;
    }
  }

  lemma NextAfterLink(tree: Tree, table: nat, i: nat, block: nat, t: nat, j: nat)
    requires table in tree && i < |tree[table]| && block != table
    ensures Next(LinkTable(tree, table, i, block), t, j) ==
      if t == block then None else if t == table && j == i then Some(block) else Next(tree, t, j)
  {
  }

  lemma LinkStep(tree: Tree, root: nat, labels: Labels, table: nat, i: nat, block: nat, t: nat, j: nat)
    requires CanLink(tree, root, labels, table, i, block)
    requires j < ENTRY_COUNT
    requires var labels' := labels[block := ChildLabel(labels[table], i)];
      t in labels' && 2 <= labels'[t].level
    ensures EntryLabelled(LinkTable(tree, table, i, block), labels[block := ChildLabel(labels[table], i)], t, j)
  {
    hide LinkTable, Next, Connected, OneTablePerLabel;
    NextAfterLink(tree, table, i, block, t, j);
    if t == block {
      NothingBelowAbsent(tree, root, labels, table, i, j);
      LabelsAdd(labels, block, ChildLabel(labels[table], i));
    } else {
      assert EntryLabelled(tree, labels, t, j);
      LabelsAdd(labels, block, ChildLabel(labels[table], i));
      if t != table || j != i { DifferentEntries(tree, root, labels, table, i, t, j); }
    }
  }

  lemma LabelsAdd(labels: Labels, block: nat, l: Label)
    requires block !in labels
    ensures labels[block := l].Values == labels.Values + {l}
  {
    var labels' := labels[block := l];
    forall v ensures v in labels'.Values <==> v in labels.Values + {l} {
      if v in labels.Values {
        var t :| t in labels && labels[t] == v;
        assert labels'[t] == v;
      } else if v == l {
        assert labels'[block] == v;
      }
    }
  }

  /** Different entries call for different labels. */
  lemma DifferentEntries(tree: Tree, root: nat, labels: Labels, s: nat, i: nat, t: nat, j: nat)
    requires WellLabelled(tree, root, labels) && s in labels && t in labels && i < ENTRY_COUNT && j < ENTRY_COUNT
    requires labels[s].level >= 2 && labels[t].level >= 2 && (s != t || i != j)
    ensures ChildLabel(labels[s], i) != ChildLabel(labels[t], j)
  {
    hide TablesFull, Downward, Connected;
    if ChildLabel(labels[s], i) == ChildLabel(labels[t], j) {
      SameChild(labels[s].prefix, i, labels[t].prefix, j);
    }
  }

  lemma SameChild(p: nat, i: nat, q: nat, j: nat)
    requires i < ENTRY_COUNT && j < ENTRY_COUNT
    ensures p * ENTRY_COUNT + i == q * ENTRY_COUNT + j ==> p == q && i == j
  {
  }

  /** The new label is new, and its parent's label is the linking table's. */
  lemma LinkOneTable(tree: Tree, root: nat, labels: Labels, table: nat, i: nat, block: nat)
    requires CanLink(tree, root, labels, table, i, block)
    ensures OneTablePerLabel(labels[block := ChildLabel(labels[table], i)])
  {
    hide Connected, TablesFull;
    var l := ChildLabel(labels[table], i);
    assert EntryLabelled(tree, labels, table, i);
    forall t | t in labels ensures labels[t] != l { assert labels[t] in labels.Values; }
  }

  lemma LinkConnected(tree: Tree, root: nat, labels: Labels, table: nat, i: nat, block: nat)
    requires CanLink(tree, root, labels, table, i, block)
    ensures Connected(labels[block := ChildLabel(labels[table], i)])
  {
    hide TablesFull, Downward, OneTablePerLabel;
    var l := ChildLabel(labels[table], i);
    LabelsAdd(labels, block, l);
    ParentOfChild(labels[table], i);
    assert labels[table] in labels.Values;
  }

  lemma ParentOfChild(l: Label, i: nat)
    requires l.level > 0 && i < ENTRY_COUNT
    ensures Label(ChildLabel(l, i).level + 1, ChildLabel(l, i).prefix / ENTRY_COUNT) == l
  {
  }

  /** Linking a fresh empty table at an absent entry keeps the tables unshared. */
  lemma LinkKeepsLabels(tree: Tree, root: nat, labels: Labels, table: nat, i: nat, block: nat)
    requires CanLink(tree, root, labels, table, i, block)
    ensures WellLabelled(LinkTable(tree, table, i, block), root, labels[block := ChildLabel(labels[table], i)])
  {
    hide EntryLabelled, Connected, OneTablePerLabel;
    var tree', labels' := LinkTable(tree, table, i, block), labels[block := ChildLabel(labels[table], i)];
    LinkOneTable(tree, root, labels, table, i, block);
    LinkConnected(tree, root, labels, table, i, block);
    forall t, j: nat | t in labels' && 2 <= labels'[t].level && j < ENTRY_COUNT
      ensures EntryLabelled(tree', labels', t, j)
    {
      LinkStep(tree, root, labels, table, i, block, t, j);
    }
  }

  /** Linking a fresh empty table changes no walk: the pages it serves were and stay unmapped. */
  lemma {:induction false} LinkKeepsWalks(tree: Tree, root: nat, labels: Labels, table: nat, i: nat, block: nat,
                                          t: nat, level: nat, page: nat)
    requires CanLink(tree, root, labels, table, i, block)
    requires 1 <= level <= 4 && t in labels && labels[t].level == level
    ensures WalkFrom(LinkTable(tree, table, i, block), t, level, page) == WalkFrom(tree, t, level, page)
    decreases level
  {
    var j := IndexAt(level, page);
    if t == table && j == i {
      assert Next(LinkTable(tree, table, i, block), block, IndexAt(level - 1, page)).None?;
    } else if level > 1 {
      var e := Next(tree, t, j);
      assert EntryLabelled(tree, labels, t, j);
      if e.Some? {
        LinkKeepsWalks(tree, root, labels, table, i, block, e.value, level - 1, page);
      }
    }
  }

  /** Writing a level 1 entry keeps every label. */
  lemma LeafKeepsLabels(tree: Tree, root: nat, labels: Labels, table: nat, i: nat, target: nat)
    requires WellLabelled(tree, root, labels)
    requires table in labels && labels[table].level == 1 && i < ENTRY_COUNT
    ensures WellLabelled(SetNext(tree, table, i, target), root, labels)
  {
    var tree' := SetNext(tree, table, i, target);
    forall t, j: nat | t in labels && 2 <= labels[t].level && j < ENTRY_COUNT
      ensures EntryLabelled(tree', labels, t, j)
    {
      assert t != table && EntryLabelled(tree, labels, t, j);
      assert Next(tree', t, j) == Next(tree, t, j);
    }
  }

  /** A walk from a table that serves the page finds the new target for the written page only. */
  lemma {:induction false} LeafWalk(tree: Tree, root: nat, labels: Labels, table: nat, target: nat, page: nat,
                                    t: nat, level: nat, q: nat)
    requires WellLabelled(tree, root, labels)
    requires table in labels && labels[table] == LabelFor(1, page)
    requires 1 <= level <= 4 && t in labels && labels[t] == LabelFor(level, q)
    ensures q != page ==>
      WalkFrom(SetNext(tree, table, IndexAt(1, page), target), t, level, q) == WalkFrom(tree, t, level, q)
    decreases level
  {
    var tree' := SetNext(tree, table, IndexAt(1, page), target);
    if level == 1 {
      if t == table && IndexAt(1, q) == IndexAt(1, page) { PagesSplit(q, page); }
    } else {
      assert t != table && EntryLabelled(tree, labels, t, IndexAt(level, q));
      var e := Next(tree, t, IndexAt(level, q));
      assert Next(tree', t, IndexAt(level, q)) == e;
      if e.Some? {
        ChildServesPage(level, q);
        LeafWalk(tree, root, labels, table, target, page, e.value, level - 1, q);
      }
    }
  }

  /** While the page's level 1 table exists, the walk gets to it and ends at its entry. */
  lemma {:induction false} WalkReachesLeaf(tree: Tree, root: nat, labels: Labels, table: nat, page: nat, t: nat,
                                           level: nat)
    requires WellLabelled(tree, root, labels)
    requires table in labels && labels[table] == LabelFor(1, page)
    requires 1 <= level <= 4 && t in labels && labels[t] == LabelFor(level, page)
    ensures WalkFrom(tree, t, level, page) == Next(tree, table, IndexAt(1, page))
    decreases level
  {
    if level > 1 {
      ChildServesPage(level, page);
      LabelsAbove(labels, table, page, level - 1);
      assert EntryLabelled(tree, labels, t, IndexAt(level, page));
      WalkReachesLeaf(tree, root, labels, table, page, Next(tree, t, IndexAt(level, page)).value, level - 1);
    }
  }

  /** With the page's level 1 label in use, so are its labels on every level. */
  lemma {:induction false} LabelsAbove(labels: Labels, table: nat, page: nat, level: nat)
    requires Connected(labels)
    requires table in labels && labels[table] == LabelFor(1, page)
    requires 1 <= level <= 4
    ensures LabelFor(level, page) in labels.Values
    decreases level
  {
    if level > 1 {
      hide Span;
      LabelsAbove(labels, table, page, level - 1);
      var t :| t in labels && labels[t] == LabelFor(level - 1, page);
      LabelOneUp(level, page);
    }
  }

  lemma LabelOneUp(level: nat, page: nat)
    requires 1 < level <= 4
    ensures Label(LabelFor(level - 1, page).level + 1, LabelFor(level - 1, page).prefix / ENTRY_COUNT) ==
      LabelFor(level, page)
  {
  }

  lemma RootServesPage(page: nat)
    requires page < PAGE_COUNT
    ensures LabelFor(4, page) == Label(4, 0)
  {
  }
}
