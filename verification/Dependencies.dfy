/** schemes.go: validating that every credential type can be obtained through its dependencies, an
    and-or graph: all disjunctions, one conjunction of each, all items of that conjunction. */
module Dependencies {
  import opened Outcomes

  type Conjunction = seq<string>
  type Disjunction = seq<Conjunction>

  /** A credential type as far as its dependencies go; None if it declares none. */
  datatype Node = Node(scheme: string, dependencies: Option<seq<Disjunction>>)

  type Graph = map<string, Node>

  function Discons(g: Graph, id: string): seq<Disjunction>
    requires id in g
  {
    if g[id].dependencies.Some? then g[id].dependencies.value else []
  }

  /** maxDepComplexity */
  const MAX_COMPLEXITY := 25

  /** nil, errCircDep, the other errors, and a nil dereference on an unknown type */
  datatype Verdict = Valid | Circular | TooComplex | OutsideScheme | Crash

  // ---------------------------------------------------------------- what the validation computes

  /** Of two steps in a row, the first that is not Valid decides. */
  function Then(a: Verdict, b: Verdict): Verdict { if a == Valid then b else a }

  /** validateDependencies of `id`, `n` steps down the chain, avoiding `target` */
  function Check(g: Graph, id: string, n: nat, target: string): Verdict
    decreases MAX_COMPLEXITY - n, 4, 0
  {
    if n >= MAX_COMPLEXITY then TooComplex
    else if id !in g then Crash
    else CheckAll(g, g[id].scheme, Discons(g, id), n, target)
  }

  function CheckAll(g: Graph, scheme: string, discons: seq<Disjunction>, n: nat, target: string): Verdict
    requires n < MAX_COMPLEXITY
    decreases MAX_COMPLEXITY - n, 3, |discons|
  {
    if discons == [] then Valid
    else Then(CheckAny(g, scheme, discons[0], n, target), CheckAll(g, scheme, discons[1..], n, target))
  }

  /** A disjunction: every conjunction is looked at, and one has to be valid. */
  function CheckAny(g: Graph, scheme: string, discon: Disjunction, n: nat, target: string): Verdict
    requires n < MAX_COMPLEXITY
    decreases MAX_COMPLEXITY - n, 2, |discon|
  {
    if discon == [] then Circular
    else
      var first := CheckCon(g, scheme, discon[0], n, target);
      if first != Valid && first != Circular then first
      else
        var rest := CheckAny(g, scheme, discon[1..], n, target);
        if first == Valid && rest == Circular then Valid else rest
  }

  function CheckCon(g: Graph, scheme: string, con: Conjunction, n: nat, target: string): Verdict
    requires n < MAX_COMPLEXITY
    decreases MAX_COMPLEXITY - n, 1, |con|
  {
    if con == [] then Valid
    else Then(CheckItem(g, scheme, con[0], n, target), CheckCon(g, scheme, con[1..], n, target))
  }

  function CheckItem(g: Graph, scheme: string, item: string, n: nat, target: string): Verdict
    requires n < MAX_COMPLEXITY
    decreases MAX_COMPLEXITY - n, 0, 0
  {
    if item !in g then Crash
    else if g[item].scheme != scheme then OutsideScheme
    else if item == target then Circular
    else if g[item].dependencies.None? then Valid
    else Check(g, item, n + 1, target)
  }

  // ---------------------------------------------------------------- the loops of the source

  /** validateDependencies, always ending because the chain cannot grow beyond MAX_COMPLEXITY */
  method ValidateDependencies(g: Graph, id: string, chain: seq<string>, target: string) returns (v: Verdict)
    ensures v == Check(g, id, |chain|, target)
    decreases MAX_COMPLEXITY - |chain|, 1
  {
    if |chain| >= MAX_COMPLEXITY {
      return TooComplex;
    }
    if id !in g {
      return Crash;
    }
    var scheme, discons := g[id].scheme, Discons(g, id);
    for i := 0 to |discons|
      invariant Check(g, id, |chain|, target) == CheckAll(g, scheme, discons[i..], |chain|, target)
    {
      var disconSatisfied := false;
      var discon := discons[i];
      assert discons[i..][0] == discon && discons[i..][1..] == discons[i + 1..];
      for j := 0 to |discon|
        invariant CheckAny(g, scheme, discon, |chain|, target) ==
                  var rest := CheckAny(g, scheme, discon[j..], |chain|, target);
                  if disconSatisfied && rest == Circular then Valid else rest
      {
        assert discon[j..][0] == discon[j] && discon[j..][1..] == discon[j + 1..];
        var c := ValidateConjunction(g, scheme, discon[j], chain, target);
        if c != Valid && c != Circular {
          return c;
        }
        if c == Valid {
          disconSatisfied := true;
        }
      }
      if !disconSatisfied {
        return Circular;
      }
    }
    return Valid;
  }

  /** The innermost loop: whether all items of a conjunction are satisfied. */
  method ValidateConjunction(g: Graph, scheme: string, con: Conjunction, chain: seq<string>, target: string)
    returns (v: Verdict)
    requires |chain| < MAX_COMPLEXITY
    ensures v == CheckCon(g, scheme, con, |chain|, target)
    decreases MAX_COMPLEXITY - |chain|, 0
  {
    for k := 0 to |con|
      invariant CheckCon(g, scheme, con, |chain|, target) == CheckCon(g, scheme, con[k..], |chain|, target)
    {
      var item := con[k];
      assert con[k..][0] == item && con[k..][1..] == con[k + 1..];
      if item !in g {
        return Crash;
      }
      if g[item].scheme != scheme {
        return OutsideScheme;
      }
      if item == target {
        return Circular;
      }
      if g[item].dependencies.Some? {
        v := ValidateDependencies(g, item, chain + [item], target);
        if v != Valid {
          return;
        }
      }
    }
    return Valid;
  }

  // ---------------------------------------------------------------- which items decide

  predicate IsError(v: Verdict) { v != Valid && v != Circular }

  /** Of the disjunctions the first that is not valid decides. */
  lemma {:induction false} AllIff(g: Graph, scheme: string, discons: seq<Disjunction>, n: nat, target: string,
                                  v: Verdict)
    requires n < MAX_COMPLEXITY
    ensures CheckAll(g, scheme, discons, n, target) == v <==>
            if v == Valid then forall i :: 0 <= i < |discons| ==> CheckAny(g, scheme, discons[i], n, target) == Valid
            else exists i :: 0 <= i < |discons| && CheckAny(g, scheme, discons[i], n, target) == v
                   && forall k :: 0 <= k < i ==> CheckAny(g, scheme, discons[k], n, target) == Valid
    decreases |discons|
  {
    hide CheckAny;
    if discons != [] {
      var rest := discons[1..];
      AllIff(g, scheme, rest, n, target, v);
      assert forall k :: 0 < k < |discons| ==> discons[k] == rest[k - 1];
      assert forall k :: 0 <= k < |rest| ==> rest[k] == discons[k + 1];
    }
  }

  /** Of the conjunctions of a disjunction the first error decides; without one, one valid conjunction is enough. */
  lemma {:induction false} AnyIff(g: Graph, scheme: string, discon: Disjunction, n: nat, target: string, v: Verdict)
    requires n < MAX_COMPLEXITY
    ensures CheckAny(g, scheme, discon, n, target) == v <==>
            if IsError(v)
            then exists j :: 0 <= j < |discon| && CheckCon(g, scheme, discon[j], n, target) == v
                   && forall k :: 0 <= k < j ==> !IsError(CheckCon(g, scheme, discon[k], n, target))
            else && (forall k :: 0 <= k < |discon| ==> !IsError(CheckCon(g, scheme, discon[k], n, target)))
                 && (v == Valid <==>
                       exists j :: 0 <= j < |discon| && CheckCon(g, scheme, discon[j], n, target) == Valid)
    decreases |discon|
  {
    hide CheckCon;
    if discon != [] {
      var rest := discon[1..];
      AnyIff(g, scheme, rest, n, target, v);
      AnyIff(g, scheme, rest, n, target, CheckAny(g, scheme, rest, n, target));
      assert forall k :: 0 < k < |discon| ==> discon[k] == rest[k - 1];
      assert forall k :: 0 <= k < |rest| ==> rest[k] == discon[k + 1];
    }
  }

  /** Of the items of a conjunction the first that is not valid decides. */
  lemma {:induction false} ConIff(g: Graph, scheme: string, con: Conjunction, n: nat, target: string, v: Verdict)
    requires n < MAX_COMPLEXITY
    ensures CheckCon(g, scheme, con, n, target) == v <==>
            if v == Valid then forall i :: 0 <= i < |con| ==> CheckItem(g, scheme, con[i], n, target) == Valid
            else exists i :: 0 <= i < |con| && CheckItem(g, scheme, con[i], n, target) == v
                   && forall k :: 0 <= k < i ==> CheckItem(g, scheme, con[k], n, target) == Valid
    decreases |con|
  {
    hide CheckItem;
    if con != [] {
      var rest := con[1..];
      ConIff(g, scheme, rest, n, target, v);
      assert forall k :: 0 < k < |con| ==> con[k] == rest[k - 1];
      assert forall k :: 0 <= k < |rest| ==> rest[k] == con[k + 1];
    }
  }

  /** The validation gets to look at this item: what comes before it in its conjunction and the disjunctions before
      its own are valid, and no conjunction before its own is an error. */
  ghost predicate LooksAt(g: Graph, scheme: string, discons: seq<Disjunction>, n: nat, target: string, i: nat, j: nat,
                          k: nat)
    requires n < MAX_COMPLEXITY
  {
    && i < |discons| && j < |discons[i]| && k < |discons[i][j]|
    && (forall i' :: 0 <= i' < i ==> CheckAny(g, scheme, discons[i'], n, target) == Valid)
    && (forall j' :: 0 <= j' < j ==> !IsError(CheckCon(g, scheme, discons[i][j'], n, target)))
    && (forall k' :: 0 <= k' < k ==> CheckItem(g, scheme, discons[i][j][k'], n, target) == Valid)
  }

  /** What is wrong with an item: it is unknown, of another scheme, or, if neither and it has dependencies of its own
      that have to be looked at, something is wrong with those. */
  ghost predicate ItemErrs(g: Graph, scheme: string, item: string, n: nat, target: string, v: Verdict)
    requires n < MAX_COMPLEXITY
    decreases MAX_COMPLEXITY - n, 0
  {
    if item !in g then v == Crash
    else if g[item].scheme != scheme then v == OutsideScheme
    else item != target && g[item].dependencies.Some? && Errs(g, item, n + 1, target, v)
  }

  /** The chain of dependencies is too long, or the type is unknown, or the validation gets to an item with which
      something is wrong. */
  ghost predicate Errs(g: Graph, id: string, n: nat, target: string, v: Verdict)
    decreases MAX_COMPLEXITY - n, 1
  {
    if n >= MAX_COMPLEXITY then v == TooComplex
    else if id !in g then v == Crash
    else exists i: nat, j: nat, k: nat :: LooksAt(g, g[id].scheme, Discons(g, id), n, target, i, j, k)
           && ItemErrs(g, g[id].scheme, Discons(g, id)[i][j][k], n, target, v)
  }

  /** The other errors are returned exactly if the validation gets to their cause. */
  lemma {:induction false} ErrorIff(g: Graph, id: string, n: nat, target: string, v: Verdict)
    requires IsError(v)
    ensures Check(g, id, n, target) == v <==> Errs(g, id, n, target, v)
    decreases MAX_COMPLEXITY - n, 1
  {
    if n < MAX_COMPLEXITY && id in g {
      var scheme, discons := g[id].scheme, Discons(g, id);
      AllIff(g, scheme, discons, n, target, v);
      hide CheckAll, CheckAny, CheckCon, CheckItem, LooksAt, ItemErrs;
      if Check(g, id, n, target) == v {
        var i: nat :| i < |discons| && CheckAny(g, scheme, discons[i], n, target) == v
          && forall i' :: 0 <= i' < i ==> CheckAny(g, scheme, discons[i'], n, target) == Valid;
        var j, k := ErringItem(g, scheme, discons, n, target, i, v);
        ItemErrorIff(g, scheme, discons[i][j][k], n, target, v);
      }
      if Errs(g, id, n, target, v) {
        var i: nat, j: nat, k: nat :| LooksAt(g, scheme, discons, n, target, i, j, k)
          && ItemErrs(g, scheme, discons[i][j][k], n, target, v);
        LookedAt(g, scheme, discons, n, target, i, j, k);
        ItemErrorIff(g, scheme, discons[i][j][k], n, target, v);
        ItemDecides(g, scheme, discons, n, target, i, j, k, v);
      }
    }
  }

  lemma {:induction false} ItemErrorIff(g: Graph, scheme: string, item: string, n: nat, target: string, v: Verdict)
    requires n < MAX_COMPLEXITY && IsError(v)
    ensures CheckItem(g, scheme, item, n, target) == v <==> ItemErrs(g, scheme, item, n, target, v)
    decreases MAX_COMPLEXITY - n, 0
  {
    if item in g && g[item].scheme == scheme && item != target && g[item].dependencies.Some? {
      ErrorIff(g, item, n + 1, target, v);
    }
  }

  lemma LookedAt(g: Graph, scheme: string, discons: seq<Disjunction>, n: nat, target: string, i: nat, j: nat, k: nat)
    requires n < MAX_COMPLEXITY && LooksAt(g, scheme, discons, n, target, i, j, k)
    ensures i < |discons| && j < |discons[i]| && k < |discons[i][j]|
  {
  }

  /** An error of a disjunction comes from an item the validation gets to. */
  lemma ErringItem(g: Graph, scheme: string, discons: seq<Disjunction>, n: nat, target: string, i: nat, v: Verdict)
    returns (j: nat, k: nat)
    requires n < MAX_COMPLEXITY && IsError(v) && i < |discons| && CheckAny(g, scheme, discons[i], n, target) == v
    requires forall i' :: 0 <= i' < i ==> CheckAny(g, scheme, discons[i'], n, target) == Valid
    ensures LooksAt(g, scheme, discons, n, target, i, j, k) && j < |discons[i]| && k < |discons[i][j]|
    ensures CheckItem(g, scheme, discons[i][j][k], n, target) == v
  {
    hide CheckAny, CheckCon, CheckItem;
    AnyIff(g, scheme, discons[i], n, target, v);
    j :| 0 <= j < |discons[i]| && CheckCon(g, scheme, discons[i][j], n, target) == v
      && forall j' :: 0 <= j' < j ==> !IsError(CheckCon(g, scheme, discons[i][j'], n, target));
    ConIff(g, scheme, discons[i][j], n, target, v);
    k :| 0 <= k < |discons[i][j]| && CheckItem(g, scheme, discons[i][j][k], n, target) == v
      && forall k' :: 0 <= k' < k ==> CheckItem(g, scheme, discons[i][j][k'], n, target) == Valid;
  }

  /** An error of an item the validation gets to is the verdict. */
  lemma ItemDecides(g: Graph, scheme: string, discons: seq<Disjunction>, n: nat, target: string, i: nat, j: nat, k: nat,
                    v: Verdict)
    requires n < MAX_COMPLEXITY && IsError(v) && LooksAt(g, scheme, discons, n, target, i, j, k)
    requires CheckItem(g, scheme, discons[i][j][k], n, target) == v
    ensures CheckAll(g, scheme, discons, n, target) == v
  {
    hide CheckAll, CheckAny, CheckCon, CheckItem;
    ConIff(g, scheme, discons[i][j], n, target, v);
    AnyIff(g, scheme, discons[i], n, target, v);
    AllIff(g, scheme, discons, n, target, v);
  }

  // ---------------------------------------------------------------- obtainable types

  /** Obtainable from nothing in `rank` rounds, by a derivation that below the top uses nothing of
      `avoided`. Over all ranks this is the least fixed point of the and-or graph. */
  ghost predicate Obtainable(g: Graph, avoided: set<string>, id: string, rank: nat)
    decreases rank, 1
  {
    rank > 0 && id in g && forall discon <- Discons(g, id) :: exists con <- discon ::
      AllObtainable(g, avoided, con, rank - 1)
  }

  ghost predicate AllObtainable(g: Graph, avoided: set<string>, con: Conjunction, rank: nat)
    decreases rank, 2
  {
    forall item <- con :: item !in avoided && Obtainable(g, avoided, item, rank)
  }

  lemma {:induction false} AvoidingLess(g: Graph, avoided: set<string>, fewer: set<string>, id: string, rank: nat)
    requires fewer <= avoided && Obtainable(g, avoided, id, rank)
    ensures Obtainable(g, fewer, id, rank)
    decreases rank
  {
    forall discon <- Discons(g, id) ensures exists con <- discon :: AllObtainable(g, fewer, con, rank - 1) {
      var con :| con in discon && AllObtainable(g, avoided, con, rank - 1);
      forall item <- con ensures item !in fewer && Obtainable(g, fewer, item, rank - 1) {
        AvoidingLess(g, avoided, fewer, item, rank - 1);
      }
    }
  }

  // ---------------------------------------------------------------- success

  /** Success means obtainable, without using the checked type on the way. */
  lemma {:induction false} ValidIsObtainable(g: Graph, id: string, n: nat, target: string)
    requires Check(g, id, n, target) == Valid
    ensures n < MAX_COMPLEXITY && Obtainable(g, {target}, id, MAX_COMPLEXITY - n + 1)
    decreases MAX_COMPLEXITY - n
  {
    forall discon <- Discons(g, id) ensures exists con <- discon ::
      AllObtainable(g, {target}, con, MAX_COMPLEXITY - n) {
      AllValid(g, g[id].scheme, Discons(g, id), n, target, discon);
      var con := ValidOption(g, g[id].scheme, discon, n, target);
      forall item <- con ensures item !in {target} && Obtainable(g, {target}, item, MAX_COMPLEXITY - n) {
        ItemValid(g, g[id].scheme, con, n, target, item);
        if g[item].dependencies.Some? {
          ValidIsObtainable(g, item, n + 1, target);
        }
      }
    }
  }

  lemma {:induction false} AllValid(g: Graph, scheme: string, discons: seq<Disjunction>, n: nat, target: string,
                                    discon: Disjunction)
    requires n < MAX_COMPLEXITY && CheckAll(g, scheme, discons, n, target) == Valid && discon in discons
    ensures CheckAny(g, scheme, discon, n, target) == Valid
    decreases |discons|
  {
    if discon != discons[0] {
      AllValid(g, scheme, discons[1..], n, target, discon);
    }
  }

  lemma {:induction false} ValidOption(g: Graph, scheme: string, discon: Disjunction, n: nat, target: string)
    returns (con: Conjunction)
    requires n < MAX_COMPLEXITY && CheckAny(g, scheme, discon, n, target) == Valid
    ensures con in discon && CheckCon(g, scheme, con, n, target) == Valid
    decreases |discon|
  {
    con := discon[0];
    if CheckCon(g, scheme, con, n, target) != Valid {
      con := ValidOption(g, scheme, discon[1..], n, target);
    }
  }

  lemma {:induction false} ItemValid(g: Graph, scheme: string, con: Conjunction, n: nat, target: string, item: string)
    requires n < MAX_COMPLEXITY && CheckCon(g, scheme, con, n, target) == Valid && item in con
    ensures item in g && item != target && CheckItem(g, scheme, item, n, target) == Valid
    decreases |con|
  {
    if item != con[0] {
      ItemValid(g, scheme, con[1..], n, target, item);
    }
  }

  // ---------------------------------------------------------------- errCircDep

  /** The circular error means: no derivation of this rank, if the checked type has none of lower rank. */
  lemma {:induction false} CircularHasNoDerivation(g: Graph, id: string, n: nat, target: string, rank: nat)
    requires Check(g, id, n, target) == Circular
    requires forall lower: nat :: lower < rank ==> !Obtainable(g, {}, target, lower)
    ensures !Obtainable(g, {}, id, rank)
    decreases MAX_COMPLEXITY - n
  {
    if Obtainable(g, {}, id, rank) {
      var discon := CircularDisjunction(g, g[id].scheme, Discons(g, id), n, target);
      var con :| con in discon && AllObtainable(g, {}, con, rank - 1);
      var item := CircularItem(g, g[id].scheme, discon, n, target, con);
      assert Obtainable(g, {}, item, rank - 1);
      if item != target {
        CircularHasNoDerivation(g, item, n + 1, target, rank - 1);
      }
    }
  }

  lemma {:induction false} CircularDisjunction(g: Graph, scheme: string, discons: seq<Disjunction>, n: nat,
                                               target: string)
    returns (discon: Disjunction)
    requires n < MAX_COMPLEXITY && CheckAll(g, scheme, discons, n, target) == Circular
    ensures discon in discons && CheckAny(g, scheme, discon, n, target) == Circular
    decreases |discons|
  {
    discon := discons[0];
    if CheckAny(g, scheme, discon, n, target) == Valid {
      discon := CircularDisjunction(g, scheme, discons[1..], n, target);
    }
  }

  /** Every conjunction of a circular disjunction has an item that is the checked type or circular itself. */
  lemma {:induction false} CircularItem(g: Graph, scheme: string, discon: Disjunction, n: nat, target: string,
                                        con: Conjunction)
    returns (item: string)
    requires n < MAX_COMPLEXITY && CheckAny(g, scheme, discon, n, target) == Circular && con in discon
    ensures item in con && (item == target || Check(g, item, n + 1, target) == Circular)
    decreases |discon|
  {
    if con == discon[0] {
      item := CircularInCon(g, scheme, con, n, target);
    } else {
      item := CircularItem(g, scheme, discon[1..], n, target, con);
    }
  }

  lemma {:induction false} CircularInCon(g: Graph, scheme: string, con: Conjunction, n: nat, target: string)
    returns (item: string)
    requires n < MAX_COMPLEXITY && CheckCon(g, scheme, con, n, target) == Circular
    ensures item in con && (item == target || Check(g, item, n + 1, target) == Circular)
    decreases |con|
  {
    item := con[0];
    if CheckItem(g, scheme, item, n, target) == Valid {
      item := CircularInCon(g, scheme, con[1..], n, target);
    }
  }

  lemma {:induction false} CircularNeverObtainable(g: Graph, id: string, rank: nat)
    requires Check(g, id, 0, id) == Circular
    ensures !Obtainable(g, {}, id, rank)
  {
    forall lower: nat | lower < rank ensures !Obtainable(g, {}, id, lower) {
      CircularNeverObtainable(g, id, lower);
    }
    CircularHasNoDerivation(g, id, 0, id, rank);
  }

  // ---------------------------------------------------------------- the two together

  ghost predicate InLeastFixedPoint(g: Graph, avoided: set<string>, id: string) {
    exists rank: nat :: Obtainable(g, avoided, id, rank)
  }

  /** The validation gets to nothing that is wrong. */
  ghost predicate NothingWrong(g: Graph, id: string) {
    forall v: Verdict :: IsError(v) ==> !Errs(g, id, 0, id, v)
  }

  /** For every graph and type: if the validation gets to nothing that is wrong, the type is valid exactly if it is in
      the least fixed point of obtainable types, and then by a derivation that never uses the type itself, and
      circular otherwise. */
  lemma ValidIffObtainable(g: Graph, id: string)
    ensures Check(g, id, 0, id) == Valid <==> NothingWrong(g, id) && InLeastFixedPoint(g, {}, id)
    ensures Check(g, id, 0, id) == Valid <==> NothingWrong(g, id) && InLeastFixedPoint(g, {id}, id)
    ensures Check(g, id, 0, id) == Circular <==> NothingWrong(g, id) && !InLeastFixedPoint(g, {}, id)
  {
    forall v: Verdict | IsError(v) ensures Check(g, id, 0, id) == v <==> Errs(g, id, 0, id, v) {
      ErrorIff(g, id, 0, id, v);
    }
    hide Check, Errs;
    if Check(g, id, 0, id) == Valid {
      ValidIsObtainable(g, id, 0, id);
      AvoidingLess(g, {id}, {}, id, MAX_COMPLEXITY + 1);
    } else if Check(g, id, 0, id) == Circular {
      forall rank: nat ensures !Obtainable(g, {}, id, rank) && !Obtainable(g, {id}, id, rank) {
        CircularNeverObtainable(g, id, rank);
        if Obtainable(g, {id}, id, rank) {
          AvoidingLess(g, {id}, {}, id, rank);
        }
      }
    } else {
      assert Errs(g, id, 0, id, Check(g, id, 0, id));
    }
  }

  /** Validation does not exclude cycles: both types of this graph are valid, although the first way to
      obtain one needs the other, and the only way to obtain that one needs the first. */
  lemma ValidCycle()
    ensures exists g: Graph, a: string, b: string, c: string ::
      && a in g && b in g && c in g && Discons(g, a) == [[[b], [c]]] && Discons(g, b) == [[[a]]]
      && Check(g, a, 0, a) == Valid && Check(g, b, 0, b) == Valid && Check(g, c, 0, c) == Valid
  {
    var a, b, c := "a", "b", "c";
    var g: Graph := map[a := Node("s", Some([[[b], [c]]])), b := Node("s", Some([[[a]]])), c := Node("s", None)];
    assert CheckCon(g, "s", [b], 0, a) == Circular by {
      assert Check(g, b, 1, a) == Circular by {
        assert CheckItem(g, "s", a, 1, a) == Circular;
        assert CheckCon(g, "s", [a], 1, a) == Circular;
        assert CheckAny(g, "s", [[a]], 1, a) == Circular;
      }
    }
    assert CheckAny(g, "s", [[c]], 0, a) == Valid by {
      assert CheckCon(g, "s", [c], 0, a) == Valid by { assert [c][1..] == []; }
      assert [[c]][1..] == [];
    }
    assert Check(g, a, 0, a) == Valid by {
      assert [[b], [c]][1..] == [[c]];
      assert CheckAny(g, "s", [[b], [c]], 0, a) == Valid;
      assert [[[b], [c]]][1..] == [];
    }
    assert CheckAny(g, "s", [[b], [c]], 1, b) == Valid by {
      assert CheckCon(g, "s", [b], 1, b) == Circular;
      assert CheckCon(g, "s", [c], 1, b) == Valid by { assert [c][1..] == []; }
      assert [[c]][1..] == [] && [[b], [c]][1..] == [[c]];
      assert CheckAny(g, "s", [[c]], 1, b) == Valid;
    }
    assert Check(g, a, 1, b) == Valid by { assert [[[b], [c]]][1..] == []; }
    assert Check(g, b, 0, b) == Valid by {
      assert CheckCon(g, "s", [a], 0, b) == Valid by { assert [a][1..] == []; }
      assert CheckAny(g, "s", [[a]], 0, b) == Valid by { assert [[a]][1..] == []; }
      assert [[[a]]][1..] == [];
    }
  }
}
