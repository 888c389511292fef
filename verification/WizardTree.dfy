/** descriptions.go: the order in which an issue wizard lets its user obtain credentials and all that
    they depend on. */
module WizardTree {
  import opened Outcomes
  import opened Dependencies

  // ---------------------------------------------------------------- choosing a path

  predicate Satisfied<T>(con: seq<T>, has: T -> bool) { forall i :: 0 <= i < |con| ==> has(con[i]) }

  /** The first conjunction the user has already completed, otherwise the first. */
  function Choice<T>(discon: seq<seq<T>>, has: T -> bool): (con: seq<T>)
    requires discon != []
    ensures con in discon
    ensures Satisfied(con, has) || (con == discon[0] && forall other <- discon :: !Satisfied(other, has))
  {
    if Satisfied(discon[0], has) || |discon| == 1 then discon[0]
    else
      var later := Choice(discon[1..], has);
      if Satisfied(later, has) then later else discon[0]
  }

  /** ChoosePath: an empty disjunction makes the source index out of range. */
  function ChoosePath<T>(contents: seq<seq<seq<T>>>, has: T -> bool): Outcome<seq<T>> {
    if contents == [] then Done([])
    else if contents[|contents| - 1] == [] then (if ChoosePath(contents[..|contents| - 1], has).Done? then Panic
      else ChoosePath(contents[..|contents| - 1], has))
    else
      var init :- ChoosePath(contents[..|contents| - 1], has);
      Done(init + Choice(contents[|contents| - 1], has))
  }

  method ComputePath<T>(contents: seq<seq<seq<T>>>, has: T -> bool) returns (o: Outcome<seq<T>>)
    ensures o == ChoosePath(contents, has)
  {
    var choice := [];
    for i := 0 to |contents|
      invariant ChoosePath(contents[..i], has) == Done(choice)
    {
      var discon := contents[i];
      assert contents[..i + 1][..i] == contents[..i];
      var found := false;
      var j := 0;
      while j < |discon| && !found
        invariant j <= |discon|
        invariant forall k :: 0 <= k < j - (if found then 1 else 0) ==> !Satisfied(discon[k], has)
        invariant !found ==> ChoosePath(contents[..i], has) == Done(choice)
        invariant found ==> discon != [] && ChoosePath(contents[..i + 1], has) == Done(choice)
      {
        var con := discon[j];
        var conSatisfied := true;
        for k := 0 to |con|
          invariant conSatisfied <==> forall m :: 0 <= m < k ==> has(con[m])
        {
          conSatisfied := conSatisfied && has(con[k]);
        }
        if conSatisfied {
          ChoiceIsFirst(discon, has, j);
          choice := choice + con;
          found := true;
        }
        j := j + 1;
      }
      if !found {
        if discon == [] {
          PanicStays(contents, has, i + 1);
          return Panic;
        }
        assert forall con <- discon :: !Satisfied(con, has);
        choice := choice + discon[0];
      }
    }
    assert contents[..|contents|] == contents;
    return Done(choice);
  }

  lemma {:induction false} ChoiceIsFirst<T>(discon: seq<seq<T>>, has: T -> bool, j: nat)
    requires j < |discon| && Satisfied(discon[j], has) && forall k :: 0 <= k < j ==> !Satisfied(discon[k], has)
    ensures Choice(discon, has) == discon[j]
  {
    if j > 0 {
      ChoiceIsFirst(discon[1..], has, j - 1);
    }
  }

  lemma {:induction false} PanicStays<T>(contents: seq<seq<seq<T>>>, has: T -> bool, n: nat)
    requires n <= |contents| && ChoosePath(contents[..n], has).Panic?
    ensures ChoosePath(contents, has).Panic?
    decreases |contents| - n
  {
    if n == |contents| {
      assert contents[..n] == contents;
    } else {
      assert contents[..n + 1][..n] == contents[..n];
      PanicStays(contents, has, n + 1);
    }
  }

  /** The first completed conjunction, or the first if none is completed. */
  ghost predicate IsChoice<T>(discon: seq<seq<T>>, has: T -> bool, j: nat) {
    && j < |discon|
    && (forall k :: 0 <= k < j ==> exists x <- discon[k] :: !has(x))
    && ((forall x <- discon[j] :: has(x)) || (j == 0 && forall con <- discon :: exists x <- con :: !has(x)))
  }

  lemma ChoiceAt<T>(discon: seq<seq<T>>, has: T -> bool) returns (j: nat)
    requires discon != []
    ensures IsChoice(discon, has, j) && Choice(discon, has) == discon[j]
  {
    j := 0;
    while j < |discon| && !Satisfied(discon[j], has)
      invariant j <= |discon| && forall k :: 0 <= k < j ==> !Satisfied(discon[k], has)
    {
      j := j + 1;
    }
    forall k | 0 <= k < |discon| && !Satisfied(discon[k], has) ensures exists x <- discon[k] :: !has(x) {
      var i :| 0 <= i < |discon[k]| && !has(discon[k][i]);
      assert discon[k][i] in discon[k];
    }
    if j < |discon| {
      ChoiceIsFirst(discon, has, j);
    } else {
      j := 0;
    }
  }

  function Concat<T>(parts: seq<seq<T>>): seq<T> {
    if parts == [] then [] else Concat(parts[..|parts| - 1]) + parts[|parts| - 1]
  }

  /** What a disjunction contributes to the path. */
  ghost predicate Contributes<T>(discon: seq<seq<T>>, has: T -> bool, part: seq<T>) {
    exists j: nat :: IsChoice(discon, has, j) && part == discon[j]
  }

  /** The path exists exactly if no disjunction is empty, and then every disjunction contributes, in order, its
      first completed conjunction, or its first if it has none, and nothing else is on it. */
  lemma {:induction false} PathExact<T>(contents: seq<seq<seq<T>>>, has: T -> bool) returns (parts: seq<seq<T>>)
    ensures ChoosePath(contents, has).Done? <==> forall i :: 0 <= i < |contents| ==> contents[i] != []
    ensures !ChoosePath(contents, has).Err?
    ensures ChoosePath(contents, has).Done? ==>
            && ChoosePath(contents, has).value == Concat(parts) && |parts| == |contents|
            && forall i :: 0 <= i < |contents| ==> Contributes(contents[i], has, parts[i])
  {
    parts := [];
    if contents != [] {
      var n := |contents| - 1;
      hide Choice, IsChoice;
      parts := PathExact(contents[..n], has);
      if ChoosePath(contents, has).Done? {
        var j := ChoiceAt(contents[n], has);
        var more := parts + [contents[n][j]];
        assert more[..|parts|] == parts;
        parts := more;
      }
    }
  }

  // ---------------------------------------------------------------- the dependency tree

  /** credentialDependencies.get without its memory: the chosen dependencies of a credential type. */
  function Children(g: Graph, creds: set<string>, id: string): Outcome<seq<string>> {
    if id !in g then Panic else ChoosePath(Discons(g, id), HeldIn(creds))
  }

  function HeldIn(creds: set<string>): string -> bool { x => x in creds }

  function Kids(g: Graph, creds: set<string>, id: string): seq<string> {
    if Children(g, creds, id).Done? then Children(g, creds, id).value else []
  }

  /** An unknown type, and one with an empty disjunction, make the source panic; nothing else goes wrong. */
  lemma ChildrenExact(g: Graph, creds: set<string>, id: string)
    ensures Children(g, creds, id).Done? <==>
            id in g && forall i :: 0 <= i < |Discons(g, id)| ==> Discons(g, id)[i] != []
    ensures !Children(g, creds, id).Done? ==> Children(g, creds, id).Panic?
  {
    if id in g {
      var parts := PathExact(Discons(g, id), HeldIn(creds));
    }
  }

  /** A rank for some types, among them all chosen dependencies of those types, which have lower ranks. */
  ghost predicate Acyclic(g: Graph, creds: set<string>, rank: map<string, nat>) {
    forall id <- rank :: Children(g, creds, id).Done? && KidsBelow(rank, Kids(g, creds, id), rank[id])
  }

  ghost predicate KidsBelow(rank: map<string, nat>, kids: seq<string>, bound: nat) {
    forall c <- kids :: c in rank && rank[c] < bound
  }

  /** The recursion of populateDepTree on a credential type ends, without a panic, with fewer than `depth`
      calls nested in each other. */
  ghost predicate Ends(g: Graph, creds: set<string>, id: string, depth: nat)
    decreases depth
  {
    depth > 0 && Children(g, creds, id).Done? && forall c <- Kids(g, creds, id) :: Ends(g, creds, c, depth - 1)
  }

  ghost predicate AllEnd(g: Graph, creds: set<string>, roots: seq<string>, depth: nat) {
    forall r <- roots :: Ends(g, creds, r, depth)
  }

  lemma {:induction false} EndsWithMore(g: Graph, creds: set<string>, id: string, depth: nat, more: nat)
    requires Ends(g, creds, id, depth) && depth <= more
    ensures Ends(g, creds, id, more)
    decreases depth
  {
    forall c <- Kids(g, creds, id) ensures Ends(g, creds, c, more - 1) {
      EndsWithMore(g, creds, c, depth - 1, more - 1);
    }
  }

  lemma {:induction false} RankedEnds(g: Graph, creds: set<string>, rank: map<string, nat>, id: string)
    requires Acyclic(g, creds, rank) && id in rank
    ensures Ends(g, creds, id, rank[id] + 1)
    decreases rank[id]
  {
    AcyclicAt(g, creds, rank, id);
    hide Acyclic;
    forall c <- Kids(g, creds, id) ensures Ends(g, creds, c, rank[id]) {
      RankedEnds(g, creds, rank, c);
      EndsWithMore(g, creds, c, rank[c] + 1, rank[id]);
    }
  }

  /** The least number of nested calls with which the recursion ends. */
  ghost function Depth(g: Graph, creds: set<string>, id: string, bound: nat): (d: nat)
    requires Ends(g, creds, id, bound)
    ensures d <= bound && Ends(g, creds, id, d) && forall e: nat :: e < d ==> !Ends(g, creds, id, e)
  {
    if exists e: nat :: e < bound && Ends(g, creds, id, e) then
      var e: nat :| e < bound && Ends(g, creds, id, e);
      Depth(g, creds, id, e)
    else bound
  }

  /** The recursion ends on all given types if and only if there is a rank for them. */
  lemma EndsIffRanked(g: Graph, creds: set<string>, roots: seq<string>)
    ensures (exists depth: nat :: AllEnd(g, creds, roots, depth)) <==>
            (exists rank: map<string, nat> :: Acyclic(g, creds, rank) && forall r <- roots :: r in rank)
  {
    if depth: nat :| AllEnd(g, creds, roots, depth) {
      DepthIsRank(g, creds, depth);
      var rank := map id | id in g && Ends(g, creds, id, depth) :: Depth(g, creds, id, depth);
      assert Acyclic(g, creds, rank);
      forall r <- roots ensures r in rank { assert Ends(g, creds, r, depth); }
    }
    if rank: map<string, nat> :| Acyclic(g, creds, rank) && forall r <- roots :: r in rank {
      RankedAllEnd(g, creds, rank, roots);
    }
  }

  lemma DepthIsRank(g: Graph, creds: set<string>, depth: nat)
    ensures Acyclic(g, creds, map id | id in g && Ends(g, creds, id, depth) :: Depth(g, creds, id, depth))
  {
    var rank := map id | id in g && Ends(g, creds, id, depth) :: Depth(g, creds, id, depth);
    forall id <- rank ensures Children(g, creds, id).Done? && KidsBelow(rank, Kids(g, creds, id), rank[id]) {
      var d := rank[id];
      assert Ends(g, creds, id, d);
      forall c <- Kids(g, creds, id) ensures c in rank && rank[c] < d {
        assert Ends(g, creds, c, d - 1);
        EndsWithMore(g, creds, c, d - 1, depth);
      }
    }
  }

  lemma {:induction false} RankedAllEnd(g: Graph, creds: set<string>, rank: map<string, nat>, roots: seq<string>)
    requires Acyclic(g, creds, rank) && forall r <- roots :: r in rank
    ensures exists depth: nat :: AllEnd(g, creds, roots, depth)
  {
    hide Acyclic, Ends;
    if roots == [] {
      assert AllEnd(g, creds, roots, 0);
    } else {
      var n := |roots| - 1;
      RankedAllEnd(g, creds, rank, roots[..n]);
      var depth: nat :| AllEnd(g, creds, roots[..n], depth);
      RankedEnds(g, creds, rank, roots[n]);
      var more := depth + rank[roots[n]] + 1;
      forall r <- roots ensures Ends(g, creds, r, more) {
        if r in roots[..n] {
          EndsWithMore(g, creds, r, depth, more);
        } else {
          EndsWithMore(g, creds, r, rank[roots[n]] + 1, more);
        }
      }
      assert AllEnd(g, creds, roots, more);
    }
  }

  /** A graph of this kind can consist of valid types only (ValidCycle), and yet the recursion never ends
      on it when the user holds nothing: the chosen dependencies go round in a circle. */
  lemma {:induction false} ChoosesCycle(g: Graph, a: string, b: string, c: string, depth: nat)
    requires a in g && b in g && Discons(g, a) == [[[b], [c]]] && Discons(g, b) == [[[a]]]
    ensures !Ends(g, {}, a, depth) && !Ends(g, {}, b, depth)
  {
    CycleKids(g, a, b, c);
    hide Children, Kids;
    if depth > 0 {
      ChoosesCycle(g, a, b, c, depth - 1);
      assert b in Kids(g, {}, a) && a in Kids(g, {}, b);
    }
  }

  lemma CycleKids(g: Graph, a: string, b: string, c: string)
    requires a in g && b in g && Discons(g, a) == [[[b], [c]]] && Discons(g, b) == [[[a]]]
    ensures Kids(g, {}, a) == [b] && Kids(g, {}, b) == [a]
  {
    var has := HeldIn({});
    ChooseOne([[b], [c]], has);
    ChooseOne([[a]], has);
    assert !has([b][0]) && !has([c][0]) && !has([a][0]);
  }

  lemma ChooseOne<T>(discon: seq<seq<T>>, has: T -> bool)
    requires discon != []
    ensures ChoosePath([discon], has) == Done(Choice(discon, has))
  {
    assert [discon][..0] == [];
    assert [] + Choice(discon, has) == Choice(discon, has);
  }

  type Nodes = set<(nat, string)>

  /** The nodes of the tree below a credential at some level. */
  ghost function Below(g: Graph, creds: set<string>, rank: map<string, nat>, level: nat, id: string): Nodes
    requires Acyclic(g, creds, rank) && id in rank
    decreases rank[id], 1, 0
  {
    {(level, id)} + BelowAll(g, creds, rank, level + 1, Kids(g, creds, id), rank[id])
  }

  ghost function BelowAll(g: Graph, creds: set<string>, rank: map<string, nat>, level: nat, ids: seq<string>,
                          bound: nat): Nodes
    requires Acyclic(g, creds, rank) && KidsBelow(rank, ids, bound)
    decreases bound, 0, |ids|
  {
    if ids == [] then {}
    else BelowAll(g, creds, rank, level, ids[..|ids| - 1], bound) + Below(g, creds, rank, level, ids[|ids| - 1])
  }

  /** credentialDependencies: the remembered choices */
  class Memory {
    var deps: map<string, seq<string>>

    ghost predicate Valid(g: Graph, creds: set<string>)
      reads this
    {
      forall id <- deps :: Children(g, creds, id) == Done(deps[id])
    }

    constructor ()
      ensures deps == map[]
    {
      deps := map[];
    }

    method Get(g: Graph, creds: set<string>, id: string) returns (o: Outcome<seq<string>>)
      requires Valid(g, creds)
      modifies this
      ensures Valid(g, creds) && o == Children(g, creds, id)
    {
      if id !in deps {
        if id !in g {
          return Panic;
        }
        var chosen := ComputePath(Discons(g, id), HeldIn(creds));
        if !chosen.Done? {
          return chosen;
        }
        deps := deps[id := chosen.value];
      }
      return Done(deps[id]);
    }
  }

  class DepTree {
    var levels: map<nat, set<string>>

    ghost function View(): Nodes
      reads this
    {
      NodesOf(levels)
    }

    constructor ()
      ensures levels == map[]
    {
      levels := map[];
    }

    method Insert(level: nat, id: string)
      requires NoEmptyLevel(levels)
      modifies this
      ensures NoEmptyLevel(levels) && View() == old(View()) + {(level, id)}
    {
      var here := if level in levels then levels[level] else {};
      levels := levels[level := here + {id}];
      forall l: nat, x: string ensures (l, x) in View() <==> (l, x) in old(View()) + {(level, id)} {}
    }

    /** populateDepTree */
    method Populate(level: nat, id: string, g: Graph, creds: set<string>, memory: Memory, ghost rank: map<string, nat>)
      requires Acyclic(g, creds, rank) && id in rank && memory.Valid(g, creds) && NoEmptyLevel(levels)
      modifies this, memory
      ensures memory.Valid(g, creds) && NoEmptyLevel(levels)
      ensures View() == old(View()) + Below(g, creds, rank, level, id)
      decreases rank[id]
    {
      hide NodesOf, ChoosePath, Below, BelowAll, NoEmptyLevel;
      Insert(level, id);
      var kids := memory.Get(g, creds, id);
      AcyclicAt(g, creds, rank, id);
      hide Acyclic, Children, Kids, KidsBelow;
      var ids := kids.value;
      BelowSplit(g, creds, rank, level, id);
      BelowNone(g, creds, rank, level + 1, rank[id]);
      assert ids[..0] == [];
      for i := 0 to |ids|
        invariant memory.Valid(g, creds) && NoEmptyLevel(levels) && KidsBelow(rank, ids[..i], rank[id])
        invariant View() == old(View()) + {(level, id)} + BelowAll(g, creds, rank, level + 1, ids[..i], rank[id])
      {
        BelowMore(g, creds, rank, level + 1, ids, i, rank[id]);
        Populate(level + 1, ids[i], g, creds, memory, rank);
      }
      assert ids[..|ids|] == ids;
    }
  }

  lemma AcyclicAt(g: Graph, creds: set<string>, rank: map<string, nat>, id: string)
    requires Acyclic(g, creds, rank) && id in rank
    ensures Children(g, creds, id) == Done(Kids(g, creds, id)) && KidsBelow(rank, Kids(g, creds, id), rank[id])
  {
  }

  lemma BelowSplit(g: Graph, creds: set<string>, rank: map<string, nat>, level: nat, id: string)
    requires Acyclic(g, creds, rank) && id in rank
    ensures KidsBelow(rank, Kids(g, creds, id), rank[id])
    ensures Below(g, creds, rank, level, id) == {(level, id)}
      + BelowAll(g, creds, rank, level + 1, Kids(g, creds, id), rank[id])
  {
  }

  lemma BelowNone(g: Graph, creds: set<string>, rank: map<string, nat>, level: nat, bound: nat)
    requires Acyclic(g, creds, rank)
    ensures KidsBelow(rank, [], bound) && BelowAll(g, creds, rank, level, [], bound) == {}
  {
  }

  lemma BelowMore(g: Graph, creds: set<string>, rank: map<string, nat>, level: nat, ids: seq<string>, i: nat,
                  bound: nat)
    requires Acyclic(g, creds, rank) && KidsBelow(rank, ids, bound) && i < |ids|
    ensures KidsBelow(rank, ids[..i], bound) && KidsBelow(rank, ids[..i + 1], bound) && ids[i] in rank
      && rank[ids[i]] < bound
    ensures BelowAll(g, creds, rank, level, ids[..i + 1], bound) ==
            BelowAll(g, creds, rank, level, ids[..i], bound) + Below(g, creds, rank, level, ids[i])
  {
    assert ids[..i + 1][..i] == ids[..i];
  }

  ghost function NodesOf(levels: map<nat, set<string>>): Nodes { set l <- levels, x <- levels[l] :: (l, x) }

  ghost predicate NoEmptyLevel(levels: map<nat, set<string>>) { forall l <- levels :: levels[l] != {} }

  // ---------------------------------------------------------------- the tree as paths

  /** `x` is reached from `id` by following `d` chosen dependencies. */
  ghost predicate AtDepth(g: Graph, creds: set<string>, id: string, d: nat, x: string)
    decreases d, 0
  {
    if d == 0 then x == id else AnyAtDepth(g, creds, Kids(g, creds, id), d - 1, x)
  }

  ghost predicate AnyAtDepth(g: Graph, creds: set<string>, ids: seq<string>, d: nat, x: string)
    decreases d, 1
  {
    exists c <- ids :: AtDepth(g, creds, c, d, x)
  }

  lemma AnyOfMore(g: Graph, creds: set<string>, ids: seq<string>, d: nat, x: string)
    requires ids != []
    ensures AnyAtDepth(g, creds, ids, d, x) <==>
            AnyAtDepth(g, creds, ids[..|ids| - 1], d, x) || AtDepth(g, creds, ids[|ids| - 1], d, x)
  {
    hide AtDepth;
    var n := |ids| - 1;
    assert forall c :: c in ids <==> c in ids[..n] || c == ids[n];
  }

  lemma {:induction false} BelowIff(g: Graph, creds: set<string>, rank: map<string, nat>, level: nat, id: string,
                                    l: nat, x: string)
    requires Acyclic(g, creds, rank) && id in rank
    ensures (l, x) in Below(g, creds, rank, level, id) <==> l >= level && AtDepth(g, creds, id, l - level, x)
    decreases rank[id], 1, 0
  {
    hide Acyclic, Below, BelowAll, Kids, KidsBelow, AnyAtDepth;
    BelowSplit(g, creds, rank, level, id);
    BelowAllIff(g, creds, rank, level + 1, Kids(g, creds, id), rank[id], l, x);
  }

  lemma {:induction false} BelowAllIff(g: Graph, creds: set<string>, rank: map<string, nat>, level: nat,
                                       ids: seq<string>, bound: nat, l: nat, x: string)
    requires Acyclic(g, creds, rank) && KidsBelow(rank, ids, bound)
    ensures (l, x) in BelowAll(g, creds, rank, level, ids, bound) <==>
      l >= level && AnyAtDepth(g, creds, ids, l - level, x)
    decreases bound, 0, |ids|
  {
    hide Acyclic, Below, BelowAll, Kids, KidsBelow, AtDepth;
    if ids == [] {
      BelowNone(g, creds, rank, level, bound);
    } else {
      hide AnyAtDepth;
      var n := |ids| - 1;
      assert ids[..n + 1] == ids;
      BelowMore(g, creds, rank, level, ids, n, bound);
      BelowAllIff(g, creds, rank, level, ids[..n], bound, l, x);
      BelowIff(g, creds, rank, level, ids[n], l, x);
      if l >= level {
        AnyOfMore(g, creds, ids, l - level, x);
      }
    }
  }

  lemma {:induction false} OneDeeper(g: Graph, creds: set<string>, id: string, d: nat, x: string, c: string)
    requires AtDepth(g, creds, id, d, x) && c in Kids(g, creds, x)
    ensures AtDepth(g, creds, id, d + 1, c)
    decreases d
  {
    hide Kids;
    if d == 0 {
      assert AtDepth(g, creds, c, 0, c);
    } else {
      var k :| k in Kids(g, creds, id) && AtDepth(g, creds, k, d - 1, x);
      OneDeeper(g, creds, k, d - 1, x, c);
    }
  }

  /** Every path along chosen dependencies is shorter, and meets no unknown type or empty disjunction. */
  ghost predicate PathsShort(g: Graph, creds: set<string>, id: string, depth: nat) {
    forall d: nat, x :: AtDepth(g, creds, id, d, x) ==> d < depth && Children(g, creds, x).Done?
  }

  /** That is exactly when the recursion ends with that many nested calls. */
  lemma {:induction false} EndsIffPathsShort(g: Graph, creds: set<string>, id: string, depth: nat)
    ensures Ends(g, creds, id, depth) <==> PathsShort(g, creds, id, depth)
    decreases depth
  {
    hide Children, Kids;
    if Ends(g, creds, id, depth) {
      forall d: nat, x | AtDepth(g, creds, id, d, x) ensures d < depth && Children(g, creds, x).Done? {
        PathEnds(g, creds, id, depth, d, x);
      }
    }
    if PathsShort(g, creds, id, depth) {
      assert AtDepth(g, creds, id, 0, id);
      forall c <- Kids(g, creds, id) ensures Ends(g, creds, c, depth - 1) {
        forall d: nat, x | AtDepth(g, creds, c, d, x) ensures d < depth - 1 && Children(g, creds, x).Done? {
          assert AtDepth(g, creds, id, d + 1, x);
        }
        EndsIffPathsShort(g, creds, c, depth - 1);
      }
    }
  }

  lemma {:induction false} PathEnds(g: Graph, creds: set<string>, id: string, depth: nat, d: nat, x: string)
    requires Ends(g, creds, id, depth) && AtDepth(g, creds, id, d, x)
    ensures d < depth && Children(g, creds, x).Done?
    decreases d
  {
    hide Children, Kids;
    if d > 0 {
      var c :| c in Kids(g, creds, id) && AtDepth(g, creds, c, d - 1, x);
      PathEnds(g, creds, c, depth - 1, d - 1, x);
    }
  }

  lemma {:induction false} OneHigher(g: Graph, creds: set<string>, id: string, d: nat, x: string)
    requires AtDepth(g, creds, id, d + 1, x)
    ensures exists y :: AtDepth(g, creds, id, d, y)
    decreases d
  {
    hide Kids;
    if d == 0 {
      assert AtDepth(g, creds, id, 0, id);
    } else {
      var k :| k in Kids(g, creds, id) && AtDepth(g, creds, k, d, x);
      OneHigher(g, creds, k, d - 1, x);
      var y :| AtDepth(g, creds, k, d - 1, y);
      assert AtDepth(g, creds, id, d, y);
    }
  }

  /** The joined trees of all items: item i, counted from the last, is the root at level i. */
  ghost function Tree(g: Graph, creds: set<string>, rank: map<string, nat>, roots: seq<string>): Nodes
    requires Acyclic(g, creds, rank) && forall r <- roots :: r in rank
  {
    if roots == [] then {}
    else Tree(g, creds, rank, roots[..|roots| - 1]) + Below(g, creds, rank, |roots| - 1, roots[|roots| - 1])
  }

  ghost predicate InTree(g: Graph, creds: set<string>, roots: seq<string>, l: nat, x: string) {
    exists i: nat :: i < |roots| && i <= l && AtDepth(g, creds, roots[i], l - i, x)
  }

  lemma {:induction false} TreeIff(g: Graph, creds: set<string>, rank: map<string, nat>, roots: seq<string>, l: nat,
                                   x: string)
    requires Acyclic(g, creds, rank) && forall r <- roots :: r in rank
    ensures (l, x) in Tree(g, creds, rank, roots) <==> InTree(g, creds, roots, l, x)
  {
    hide Acyclic, Below, AtDepth;
    if roots != [] {
      var n := |roots| - 1;
      var init := roots[..n];
      TreeIff(g, creds, rank, init, l, x);
      BelowIff(g, creds, rank, n, roots[n], l, x);
      if InTree(g, creds, init, l, x) {
        var i: nat :| i < |init| && i <= l && AtDepth(g, creds, init[i], l - i, x);
        assert AtDepth(g, creds, roots[i], l - i, x);
      }
      if InTree(g, creds, roots, l, x) {
        var i: nat :| i < |roots| && i <= l && AtDepth(g, creds, roots[i], l - i, x);
        assert i < n ==> AtDepth(g, creds, init[i], l - i, x);
      }
    }
  }

  /** The chosen dependencies of a node are one level deeper. */
  lemma TreeClosed(g: Graph, creds: set<string>, rank: map<string, nat>, roots: seq<string>, l: nat, x: string,
                   c: string)
    requires Acyclic(g, creds, rank) && forall r <- roots :: r in rank
    requires (l, x) in Tree(g, creds, rank, roots) && c in Kids(g, creds, x)
    ensures (l + 1, c) in Tree(g, creds, rank, roots)
  {
    hide AtDepth, Tree, Acyclic, Kids;
    TreeIff(g, creds, rank, roots, l, x);
    TreeIff(g, creds, rank, roots, l + 1, c);
    var i: nat :| i < |roots| && i <= l && AtDepth(g, creds, roots[i], l - i, x);
    OneDeeper(g, creds, roots[i], l - i, x, c);
    assert AtDepth(g, creds, roots[i], l + 1 - i, c);
  }

  /** No level between a node and the last root is empty. */
  lemma TreeContiguous(g: Graph, creds: set<string>, rank: map<string, nat>, roots: seq<string>, l: nat, x: string)
    requires Acyclic(g, creds, rank) && forall r <- roots :: r in rank
    requires (l + 1, x) in Tree(g, creds, rank, roots)
    ensures exists y :: (l, y) in Tree(g, creds, rank, roots)
  {
    hide Tree, Acyclic, Kids;
    TreeIff(g, creds, rank, roots, l + 1, x);
    var i: nat :| i < |roots| && i <= l + 1 && AtDepth(g, creds, roots[i], l + 1 - i, x);
    if i == l + 1 {
      assert AtDepth(g, creds, roots[l], 0, roots[l]);
      TreeIff(g, creds, rank, roots, l, roots[l]);
    } else {
      OneHigher(g, creds, roots[i], l - i, x);
      var y :| AtDepth(g, creds, roots[i], l - i, y);
      TreeIff(g, creds, rank, roots, l, y);
    }
  }

  // ---------------------------------------------------------------- counting levels

  ghost function UpTo(n: nat): set<nat> { if n == 0 then {} else UpTo(n - 1) + {n - 1} }

  lemma {:induction false} UpToSize(n: nat)
    ensures |UpTo(n)| == n && forall x: nat :: x in UpTo(n) <==> x < n
  {
    if n > 0 {
      UpToSize(n - 1);
    }
  }

  lemma {:induction false} SubsetSize(a: set<nat>, b: set<nat>)
    requires a <= b
    ensures |a| <= |b|
    ensures a != b ==> |a| < |b|
  {
    if a == {} {
      assert a != b ==> b != {};
    } else {
      var x :| x in a;
      SubsetSize(a - {x}, b - {x});
      assert a - {x} == b - {x} ==> a == b;
    }
  }

  lemma {:induction false} ReachesDown(s: set<nat>, l: nat, k: nat)
    requires (forall m: nat :: m + 1 in s ==> m in s) && l in s && k <= l
    ensures k in s
    decreases l - k
  {
    if k < l {
      ReachesDown(s, l, k + 1);
    }
  }

  /** A set of levels without holes is 0 up to its size: len(depTree) - 1 is the deepest level. */
  lemma LevelsWithoutHoles(s: set<nat>)
    requires forall m: nat :: m + 1 in s ==> m in s
    ensures s == UpTo(|s|)
  {
    forall l: nat | l in s ensures l < |s| {
      UpToSize(l + 1);
      forall k <- UpTo(l + 1) ensures k in s { ReachesDown(s, l, k); }
      SubsetSize(UpTo(l + 1), s);
    }
    UpToSize(|s|);
    SubsetSize(s, UpTo(|s|));
  }
}
