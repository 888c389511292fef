/** descriptions.go: buildDependencyTree, which reads the joined dependency tree from its deepest level. */
module WizardOrder {
  import opened Outcomes
  import opened Dependencies
  import opened WizardTree

  // ---------------------------------------------------------------- sorting identifiers

  /** strings.Compare(a, b) < 0 */
  predicate Less(a: string, b: string) {
    b != "" && (a == "" || a[0] < b[0] || (a[0] == b[0] && Less(a[1..], b[1..])))
  }

  lemma {:induction false} LessTotal(a: string, b: string)
    ensures a == b || Less(a, b) || Less(b, a)
  {
    if a != "" && b != "" && a[0] == b[0] {
      LessTotal(a[1..], b[1..]);
      if a[1..] == b[1..] {
        assert a == [a[0]] + a[1..] == [b[0]] + b[1..] == b;
      }
    }
  }

  lemma {:induction false} LessTransitive(a: string, b: string, c: string)
    requires Less(a, b) && Less(b, c)
    ensures Less(a, c)
  {
    if a != "" && a[0] == b[0] == c[0] {
      LessTransitive(a[1..], b[1..], c[1..]);
    }
  }

  lemma {:induction false} LessIrreflexive(a: string)
    ensures !Less(a, a)
  {
    if a != "" {
      LessIrreflexive(a[1..]);
    }
  }

  method Least(ids: set<string>) returns (m: string)
    requires ids != {}
    ensures m in ids && forall x <- ids :: x == m || Less(m, x)
  {
    hide Less;
    m :| m in ids;
    var todo := ids - {m};
    while todo != {}
      invariant todo <= ids && m in ids && forall x <- ids - todo :: x == m || Less(m, x)
      decreases todo
    {
      var x :| x in todo;
      todo := todo - {x};
      LessTotal(x, m);
      if Less(x, m) {
        forall y <- ids - todo ensures y == x || Less(x, y) {
          if y != m && y != x {
            LessTransitive(x, m, y);
          }
        }
        m := x;
      }
    }
  }

  predicate Ascending(ids: seq<string>) { forall i: nat, j: nat :: i < j < |ids| ==> Less(ids[i], ids[j]) }

  method SortIds(ids: set<string>) returns (r: seq<string>)
    ensures Ascending(r) && forall x :: x in r <==> x in ids
  {
    hide Less;
    r := [];
    var rest := ids;
    while rest != {}
      invariant rest <= ids && Ascending(r) && forall x :: x in r <==> x in ids - rest
      invariant forall i: nat :: i < |r| ==> forall y <- rest :: Less(r[i], y)
      decreases rest
    {
      var m := Least(rest);
      rest := rest - {m};
      r := r + [m];
    }
  }

  // ---------------------------------------------------------------- reading the tree

  ghost predicate DeepestAt(nodes: Nodes, x: string, l: nat) {
    (l, x) in nodes && forall k: nat :: (k, x) in nodes ==> k <= l
  }

  predicate Before(l: nat, x: string, m: nat, y: string) { l > m || (l == m && Less(x, y)) }

  /** Each entry stands at its deepest level, deeper levels first, and by name within a level. */
  ghost predicate ArrangedAt(nodes: Nodes, ids: seq<string>, at: seq<nat>) {
    && |at| == |ids|
    && (forall p: nat :: p < |ids| ==> DeepestAt(nodes, ids[p], at[p]))
    && (forall p: nat, q: nat :: p < q < |ids| ==> Before(at[p], ids[p], at[q], ids[q]))
  }

  ghost predicate Occurs(nodes: Nodes, x: string, from: nat) { exists l: nat :: l >= from && (l, x) in nodes }

  /** The tree as a list: every node once, in that order. */
  ghost predicate Arranged(nodes: Nodes, ids: seq<string>) {
    && (exists at: seq<nat> :: ArrangedAt(nodes, ids, at))
    && (forall x :: x in ids <==> Occurs(nodes, x, 0))
  }

  lemma ArrangeOneMore(nodes: Nodes, ids: seq<string>, at: seq<nat>, x: string, l: nat)
    requires ArrangedAt(nodes, ids, at) && DeepestAt(nodes, x, l)
    requires forall p: nat :: p < |ids| ==> Before(at[p], ids[p], l, x)
    ensures ArrangedAt(nodes, ids + [x], at + [l])
  {
    hide DeepestAt, Before;
  }

  lemma OccursSplit(nodes: Nodes, x: string, i: nat)
    ensures Occurs(nodes, x, i) <==> (i, x) in nodes || Occurs(nodes, x, i + 1)
    ensures (i, x) in nodes && !Occurs(nodes, x, i + 1) ==> DeepestAt(nodes, x, i)
  {
    if (i, x) in nodes && !Occurs(nodes, x, i + 1) {
      forall k: nat | (k, x) in nodes ensures k <= i {
        var from := i + 1;
        assert !(k >= from && (k, x) in nodes);
      }
    }
  }

  /** One level: what was not listed yet is appended in order. */
  method ListLevel(ids: seq<string>, listed: set<string>, level: set<string>, i: nat, ghost nodes: Nodes,
                   ghost at: seq<nat>)
    returns (r: seq<string>, listed': set<string>, ghost at': seq<nat>)
    requires ArrangedAt(nodes, ids, at) && (forall p: nat :: p < |ids| ==> at[p] > i)
    requires forall x :: x in ids <==> x in listed
    requires forall x :: x in ids <==> Occurs(nodes, x, i + 1)
    requires forall x :: x in level <==> (i, x) in nodes
    ensures ArrangedAt(nodes, r, at') && (forall p: nat :: p < |r| ==> at'[p] >= i)
    ensures forall x :: x in r <==> x in listed'
    ensures forall x :: x in r <==> Occurs(nodes, x, i)
  {
    var sorted := SortIds(level);
    hide Less;
    r, listed', at' := ids, listed, at;
    for k := 0 to |sorted|
      invariant ArrangedAt(nodes, r, at') && (forall p: nat :: p < |r| ==>
        at'[p] >= i && (at'[p] == i ==> r[p] in sorted[..k]))
      invariant forall x :: x in r <==> x in listed'
      invariant forall x :: x in r <==> x in ids || x in sorted[..k]
    {
      var x := sorted[k];
      if x !in listed' {
        OccursSplit(nodes, x, i);
        ArrangeOneMore(nodes, r, at', x, i);
        r, listed', at' := r + [x], listed' + {x}, at' + [i];
      }
    }
    assert sorted[..|sorted|] == sorted;
    forall x ensures x in r <==> Occurs(nodes, x, i) {
      OccursSplit(nodes, x, i);
    }
  }

  /** The loop over the levels, from the deepest one up. */
  method ListTree(levels: map<nat, set<string>>) returns (ids: seq<string>)
    requires levels.Keys == UpTo(|levels|)
    ensures Arranged(NodesOf(levels), ids)
  {
    ghost var nodes := NodesOf(levels);
    UpToSize(|levels|);
    ids := [];
    var listed: set<string> := {};
    ghost var at: seq<nat> := [];
    var i: nat := |levels|;
    assert forall x :: !Occurs(nodes, x, i);
    hide UpTo, Occurs, ArrangedAt;
    NoneArranged(nodes);
    while i > 0
      invariant 0 <= i <= |levels| && ArrangedAt(nodes, ids, at) && |at| == |ids|
        && (forall p: nat :: p < |ids| ==> at[p] >= i)
      invariant forall x :: x in ids <==> x in listed
      invariant forall x :: x in ids <==> Occurs(nodes, x, i)
    {
      i := i - 1;
      assert i in levels;
      ids, listed, at := ListLevel(ids, listed, levels[i], i, nodes, at);
      assert |at| == |ids| by { ArrangedSize(nodes, ids, at); }
    }
  }

  lemma NoneArranged(nodes: Nodes)
    ensures ArrangedAt(nodes, [], [])
  {
  }

  lemma ArrangedSize(nodes: Nodes, ids: seq<string>, at: seq<nat>)
    requires ArrangedAt(nodes, ids, at)
    ensures |at| == |ids|
  {
  }

  // ---------------------------------------------------------------- wizard items

  /** A wizard item: the credential it issues, if known, and everything else about it. */
  datatype Item = Item(credential: Option<string>, content: string)

  /** The credentials of the items, from the last item to the first. */
  function Roots(contents: seq<Item>): seq<string> {
    if contents == [] then []
    else if contents[0].credential.Some? then Roots(contents[1..]) + [contents[0].credential.value]
    else Roots(contents[1..])
  }

  function Skipped(contents: seq<Item>): nat {
    if contents == [] then 0 else Skipped(contents[1..]) + (if contents[0].credential.None? then 1 else 0)
  }

  function FirstWith(contents: seq<Item>, id: string): Option<Item> {
    if contents == [] then None
    else if contents[0].credential == Some(id) then Some(contents[0])
    else FirstWith(contents[1..], id)
  }

  function ItemFor(contents: seq<Item>, id: string): Item {
    if FirstWith(contents, id).Some? then FirstWith(contents, id).value else Item(Some(id), "")
  }

  function ItemsFor(contents: seq<Item>, ids: seq<string>): seq<Item> {
    seq(|ids|, i requires 0 <= i < |ids| => ItemFor(contents, ids[i]))
  }

  lemma {:induction false} SkippedBound(contents: seq<Item>)
    ensures Skipped(contents) <= |contents|
  {
    if contents != [] {
      SkippedBound(contents[1..]);
    }
  }

  /** The first loop of buildDependencyTree. */
  method Reverse(contents: seq<Item>) returns (reversed: seq<string>, byId: map<string, Item>, skipped: nat)
    ensures reversed == Roots(contents) && skipped == Skipped(contents)
    ensures forall id :: LookUp(byId, id) == FirstWith(contents, id)
  {
    reversed, byId, skipped := [], map[], 0;
    var i := |contents|;
    while i > 0
      invariant 0 <= i <= |contents|
      invariant reversed == Roots(contents[i..]) && skipped == Skipped(contents[i..])
      invariant forall id :: LookUp(byId, id) == FirstWith(contents[i..], id)
    {
      i := i - 1;
      var item := contents[i];
      assert contents[i..][0] == item && contents[i..][1..] == contents[i + 1..];
      if item.credential.None? {
        skipped := skipped + 1;
      } else {
        reversed := reversed + [item.credential.value];
        byId := byId[item.credential.value := item];
      }
    }
    assert contents[0..] == contents;
  }

  function LookUp(byId: map<string, Item>, id: string): Option<Item> { if id in byId then Some(byId[id]) else None }

  /** buildDependencyTree: the credentials it lists and the items, with what it appends at the end. */
  method BuildDependencyTree(contents: seq<Item>, g: Graph, creds: set<string>, ghost rank: map<string, nat>)
    returns (result: seq<Item>, ids: seq<string>)
    requires Acyclic(g, creds, rank) && forall r <- Roots(contents) :: r in rank
    ensures Arranged(Tree(g, creds, rank, Roots(contents)), ids)
    ensures Skipped(contents) <= |contents|
    ensures result == ItemsFor(contents, ids) + contents[|contents| - Skipped(contents)..]
  {
    hide Arranged, Acyclic, Tree, UpTo, NodesOf, Roots, Skipped;
    var reversed, byId, skipped := Reverse(contents);
    var levels := JoinTrees(reversed, g, creds, rank);
    ids := ListTree(levels);
    result := LookUpItems(ids, byId, contents);
    SkippedBound(contents);
    result := result + contents[|contents| - skipped..];
  }

  method LookUpItems(ids: seq<string>, byId: map<string, Item>, ghost contents: seq<Item>) returns (result: seq<Item>)
    requires forall id :: LookUp(byId, id) == FirstWith(contents, id)
    ensures result == ItemsFor(contents, ids)
  {
    hide FirstWith;
    result := [];
    for p := 0 to |ids|
      invariant |result| == p && forall q: nat :: q < p ==> result[q] == ItemFor(contents, ids[q])
    {
      assert LookUp(byId, ids[p]) == FirstWith(contents, ids[p]);
      result := result + [if ids[p] in byId then byId[ids[p]] else Item(Some(ids[p]), "")];
    }
  }

  /** The second loop: one tree per item, joined. */
  method JoinTrees(roots: seq<string>, g: Graph, creds: set<string>, ghost rank: map<string, nat>)
    returns (levels: map<nat, set<string>>)
    requires Acyclic(g, creds, rank) && forall r <- roots :: r in rank
    ensures NodesOf(levels) == Tree(g, creds, rank, roots) && levels.Keys == UpTo(|levels|)
  {
    var tree := new DepTree();
    for i := 0 to |roots|
      invariant NoEmptyLevel(tree.levels) && tree.View() == Tree(g, creds, rank, roots[..i])
      invariant fresh(tree)
    {
      hide Acyclic, Below, NodesOf, NoEmptyLevel;
      var memory := new Memory();
      tree.Populate(i, roots[i], g, creds, memory, rank);
      assert roots[..i + 1][..i] == roots[..i];
    }
    assert roots[..|roots|] == roots;
    levels := tree.levels;
    LevelsContiguous(levels, g, creds, rank, roots);
  }

  lemma LevelsContiguous(levels: map<nat, set<string>>, g: Graph, creds: set<string>, rank: map<string, nat>,
                         roots: seq<string>)
    requires Acyclic(g, creds, rank) && forall r <- roots :: r in rank
    requires NoEmptyLevel(levels) && NodesOf(levels) == Tree(g, creds, rank, roots)
    ensures levels.Keys == UpTo(|levels|)
  {
    hide Acyclic, Tree;
    forall m: nat | m + 1 in levels.Keys ensures m in levels.Keys {
      var x :| x in levels[m + 1];
      assert (m + 1, x) in NodesOf(levels);
      TreeContiguous(g, creds, rank, roots, m, x);
      var y :| (m, y) in Tree(g, creds, rank, roots);
    }
    LevelsWithoutHoles(levels.Keys);
    assert |levels.Keys| == |levels|;
  }

  // ---------------------------------------------------------------- what the order means

  /** No credential is listed twice. */
  lemma ListedOnce(nodes: Nodes, ids: seq<string>, p: nat, q: nat)
    requires Arranged(nodes, ids) && p < q < |ids|
    ensures ids[p] != ids[q]
  {
    var at :| ArrangedAt(nodes, ids, at);
    assert Before(at[p], ids[p], at[q], ids[q]);
    if ids[p] == ids[q] {
      assert DeepestAt(nodes, ids[p], at[p]) && DeepestAt(nodes, ids[q], at[q]);
      LessIrreflexive(ids[p]);
    }
  }

  ghost predicate Reachable(g: Graph, creds: set<string>, roots: seq<string>, x: string) {
    exists i: nat, d: nat :: i < |roots| && AtDepth(g, creds, roots[i], d, x)
  }

  /** Listed are exactly the credentials reachable from the items of the wizard. */
  lemma ListedIffReachable(g: Graph, creds: set<string>, rank: map<string, nat>, roots: seq<string>, ids: seq<string>,
                           x: string)
    requires Acyclic(g, creds, rank) && (forall r <- roots :: r in rank) && Arranged(Tree(g, creds, rank, roots), ids)
    ensures x in ids <==> Reachable(g, creds, roots, x)
  {
    hide AtDepth, Acyclic, Tree;
    var tree := Tree(g, creds, rank, roots);
    if x in ids {
      var l: nat :| l >= 0 && (l, x) in tree;
      TreeIff(g, creds, rank, roots, l, x);
      var i: nat :| i < |roots| && i <= l && AtDepth(g, creds, roots[i], l - i, x);
      assert AtDepth(g, creds, roots[i], l - i, x);
    }
    if Reachable(g, creds, roots, x) {
      var i: nat, d: nat :| i < |roots| && AtDepth(g, creds, roots[i], d, x);
      TreeIff(g, creds, rank, roots, i + d, x);
      assert AtDepth(g, creds, roots[i], (i + d) - i, x);
      assert (i + d, x) in tree;
    }
  }

  /** A chosen dependency of a listed credential comes before it. */
  lemma KidFirst(g: Graph, creds: set<string>, rank: map<string, nat>, roots: seq<string>, ids: seq<string>, p: nat,
                 c: string)
    requires Acyclic(g, creds, rank) && (forall r <- roots :: r in rank) && Arranged(Tree(g, creds, rank, roots), ids)
    requires p < |ids| && c in Kids(g, creds, ids[p])
    ensures c in ids[..p]
  {
    hide Acyclic, Tree, Kids;
    var tree := Tree(g, creds, rank, roots);
    var at :| ArrangedAt(tree, ids, at);
    assert DeepestAt(tree, ids[p], at[p]);
    TreeClosed(g, creds, rank, roots, at[p], ids[p], c);
    assert Occurs(tree, c, 0);
    var q: nat :| q < |ids| && ids[q] == c;
    assert DeepestAt(tree, ids[q], at[q]);
    assert at[q] > at[p];
    assert ids[..p][q] == c;
  }

  /** So do all its dependencies, however indirect: the list can be worked through from start to end. */
  lemma {:induction false} DependenciesFirst(g: Graph, creds: set<string>, rank: map<string, nat>, roots: seq<string>,
                                             ids: seq<string>, p: nat, d: nat, x: string)
    requires Acyclic(g, creds, rank) && (forall r <- roots :: r in rank) && Arranged(Tree(g, creds, rank, roots), ids)
    requires p < |ids| && d > 0 && AtDepth(g, creds, ids[p], d, x)
    ensures x in ids[..p]
    decreases d
  {
    hide Acyclic, Tree, Kids, Arranged;
    var c :| c in Kids(g, creds, ids[p]) && AtDepth(g, creds, c, d - 1, x);
    KidFirst(g, creds, rank, roots, ids, p, c);
    if d > 1 {
      var q: nat :| q < p && ids[..p][q] == c;
      DependenciesFirst(g, creds, rank, roots, ids, q, d - 1, x);
      assert ids[..q] <= ids[..p];
    }
  }

  /** The credentials of the items, counted from the last: an item with a credential is at as many places from the
      start as items with one come after it. */
  lemma {:induction false} RootsAt(contents: seq<Item>, p: nat)
    requires p < |contents|
    ensures |Roots(contents)| + Skipped(contents) == |contents|
    ensures contents[p].credential.Some? ==>
              var at := |Roots(contents[p + 1..])|;
              at < |Roots(contents)| && Roots(contents)[at] == contents[p].credential.value
  {
    if p > 0 {
      RootsAt(contents[1..], p - 1);
      assert contents[1..][p..] == contents[p + 1..];
    } else if |contents| > 1 {
      RootsAt(contents[1..], 0);
    }
  }

  lemma {:induction false} RootsShrink(contents: seq<Item>, p: nat, q: nat)
    requires p <= q < |contents| && contents[q].credential.Some?
    ensures |Roots(contents[q + 1..])| < |Roots(contents[p..])|
    decreases q - p
  {
    if p < q {
      RootsShrink(contents, p + 1, q);
      assert contents[p..][1..] == contents[p + 1..];
    } else {
      assert contents[p..][0] == contents[q] && contents[p..][1..] == contents[q + 1..];
    }
  }

  /** What is listed for a credential is the first item of the wizard that has it, or a new one. */
  lemma {:induction false} ItemForIff(contents: seq<Item>, id: string)
    ensures if exists item <- contents :: item.credential == Some(id)
            then exists p :: 0 <= p < |contents| && contents[p].credential == Some(id)
                   && ItemFor(contents, id) == contents[p]
                   && forall k :: 0 <= k < p ==> contents[k].credential != Some(id)
            else ItemFor(contents, id) == Item(Some(id), "")
  {
    if contents != [] && contents[0].credential != Some(id) {
      var rest := contents[1..];
      ItemForIff(rest, id);
      assert contents == [contents[0]] + rest;
      assert forall k :: 0 < k < |contents| ==> contents[k] == rest[k - 1];
      if p :| 0 <= p < |rest| && rest[p].credential == Some(id) && ItemFor(rest, id) == rest[p]
              && forall k :: 0 <= k < p ==> rest[k].credential != Some(id) {
        assert contents[p + 1] == rest[p];
      }
    } else if contents != [] {
      assert contents[0] in contents;
    }
  }

  /** No other item depends on the one at place `j`, counted from the last, more deeply than it stands itself. */
  ghost predicate NotNeededDeeper(g: Graph, creds: set<string>, roots: seq<string>, j: nat)
    requires j < |roots|
  {
    forall i: nat, d: nat :: i < |roots| && AtDepth(g, creds, roots[i], d, roots[j]) ==> i + d <= j
  }

  /** The order of the wizard is kept: an item comes after all items before it, unless an earlier item depends on it. */
  lemma ItemsKeepOrder(contents: seq<Item>, g: Graph, creds: set<string>, rank: map<string, nat>, ids: seq<string>,
                       p: nat, q: nat)
    returns (a: nat, b: nat)
    requires Acyclic(g, creds, rank) && (forall r <- Roots(contents) :: r in rank)
    requires Arranged(Tree(g, creds, rank, Roots(contents)), ids)
    requires p < q < |contents| && contents[p].credential.Some? && contents[q].credential.Some?
    requires |Roots(contents[q + 1..])| < |Roots(contents)|
    requires NotNeededDeeper(g, creds, Roots(contents), |Roots(contents[q + 1..])|)
    ensures a < b < |ids| && ids[a] == contents[p].credential.value && ids[b] == contents[q].credential.value
  {
    var roots := Roots(contents);
    var i, j := |Roots(contents[p + 1..])|, |Roots(contents[q + 1..])|;
    RootsAt(contents, p);
    RootsAt(contents, q);
    RootsShrink(contents, p + 1, q);
    hide Roots, Skipped;
    a, b := RootBefore(g, creds, rank, roots, ids, i, j);
  }

  lemma RootBefore(g: Graph, creds: set<string>, rank: map<string, nat>, roots: seq<string>, ids: seq<string>, i: nat,
                   j: nat)
    returns (a: nat, b: nat)
    requires Acyclic(g, creds, rank) && (forall r <- roots :: r in rank) && Arranged(Tree(g, creds, rank, roots), ids)
    requires j < i < |roots| && NotNeededDeeper(g, creds, roots, j)
    ensures a < b < |ids| && ids[a] == roots[i] && ids[b] == roots[j]
  {
    hide Acyclic, Tree;
    var tree := Tree(g, creds, rank, roots);
    var at :| ArrangedAt(tree, ids, at);
    assert AtDepth(g, creds, roots[i], 0, roots[i]) && AtDepth(g, creds, roots[j], 0, roots[j]);
    TreeIff(g, creds, rank, roots, i, roots[i]);
    TreeIff(g, creds, rank, roots, j, roots[j]);
    assert Occurs(tree, roots[i], 0) && Occurs(tree, roots[j], 0);
    a :| 0 <= a < |ids| && ids[a] == roots[i];
    b :| 0 <= b < |ids| && ids[b] == roots[j];
    assert DeepestAt(tree, ids[a], at[a]) && DeepestAt(tree, ids[b], at[b]);
    TreeIff(g, creds, rank, roots, at[b], roots[j]);
    assert at[b] <= j;
  }

  // ---------------------------------------------------------------- items without a credential

  function WithoutCredential(contents: seq<Item>): seq<Item> {
    if contents == [] then []
    else (if contents[0].credential.None? then [contents[0]] else []) + WithoutCredential(contents[1..])
  }

  predicate UnknownLast(contents: seq<Item>) {
    forall i: nat, j: nat :: i < j < |contents| && contents[i].credential.None? ==> contents[j].credential.None?
  }

  lemma {:induction false} WithoutCredentialSize(contents: seq<Item>)
    ensures |WithoutCredential(contents)| == Skipped(contents) <= |contents|
    ensures forall item <- WithoutCredential(contents) :: item.credential.None?
    ensures Skipped(contents) == |contents| ==>
      WithoutCredential(contents) == contents && forall item <- contents :: item.credential.None?
  {
    if contents != [] {
      WithoutCredentialSize(contents[1..]);
      if Skipped(contents) == |contents| {
        assert contents == [contents[0]] + contents[1..];
      }
    }
  }

  /** What is appended at the end are the items without a credential exactly when those were the last
      ones; otherwise some of them are lost and items with a credential appear twice. */
  lemma TrailingItems(contents: seq<Item>)
    ensures Skipped(contents) <= |contents|
    ensures contents[|contents| - Skipped(contents)..] == WithoutCredential(contents) <==> UnknownLast(contents)
  {
    hide Skipped, WithoutCredential, UnknownLast;
    SkippedBound(contents);
    var n := |contents| - Skipped(contents);
    if contents[n..] == WithoutCredential(contents) {
      TailUnknown(contents, n);
    }
    if UnknownLast(contents) {
      UnknownAtEnd(contents);
    }
  }

  lemma {:induction false} UnknownAtEnd(contents: seq<Item>)
    requires UnknownLast(contents)
    ensures Skipped(contents) <= |contents| && contents[|contents| - Skipped(contents)..] == WithoutCredential(contents)
  {
    WithoutCredentialSize(contents);
    if contents != [] {
      var rest := contents[1..];
      if contents[0].credential.None? {
        AllUnknown(contents);
      } else {
        assert UnknownLast(rest) by {
          forall i: nat, j: nat | i < j < |rest| && rest[i].credential.None? ensures rest[j].credential.None? {
            assert contents[i + 1] == rest[i] && contents[j + 1] == rest[j];
          }
        }
        UnknownAtEnd(rest);
        assert contents[|contents| - Skipped(contents)..] == rest[|rest| - Skipped(rest)..];
      }
    }
  }

  lemma {:induction false} AllUnknown(contents: seq<Item>)
    requires forall i: nat :: i < |contents| ==> contents[i].credential.None?
    ensures Skipped(contents) == |contents|
  {
    if contents != [] {
      AllUnknown(contents[1..]);
    }
  }

  lemma {:induction false} NoneUnknown(contents: seq<Item>, i: nat)
    requires Skipped(contents) == 0 && i < |contents|
    ensures contents[i].credential.Some?
  {
    if i > 0 {
      NoneUnknown(contents[1..], i - 1);
    }
  }

  lemma {:induction false} SkippedSplit(contents: seq<Item>, n: nat)
    requires n <= |contents|
    ensures Skipped(contents) == Skipped(contents[..n]) + Skipped(contents[n..])
  {
    if n > 0 {
      SkippedSplit(contents[1..], n - 1);
      assert contents[..n][1..] == contents[1..][..n - 1];
      assert contents[n..] == contents[1..][n - 1..];
    } else {
      assert contents[0..] == contents;
    }
  }

  /** If the last Skipped(contents) items have no credential, no other item lacks one. */
  lemma TailUnknown(contents: seq<Item>, n: nat)
    requires n == |contents| - Skipped(contents) && contents[n..] == WithoutCredential(contents)
    ensures UnknownLast(contents)
  {
    WithoutCredentialSize(contents);
    hide WithoutCredential;
    var tail := contents[n..];
    assert forall i: nat :: i < |tail| ==> tail[i].credential.None?;
    SkippedSplit(contents, n);
    AllUnknown(contents[n..]);
    forall i: nat, j: nat | i < j < |contents| && contents[i].credential.None? ensures contents[j].credential.None? {
      if i < n {
        NoneUnknown(contents[..n], i);
        assert false;
      }
      assert tail[j - n] == contents[j];
    }
  }
}
