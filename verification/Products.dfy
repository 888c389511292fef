/** irmaclient/client.go: credCandidateSet.multiply and cartesianProduct, for any kind of candidate. The
    source appends to slices that share their arrays, so that its listing is not always the product. */
module Products {

  function AppendAll<T>(set_: seq<seq<T>>, c: T): (r: seq<seq<T>>)
    ensures |r| == |set_|
  {
    seq(|set_|, k requires 0 <= k < |set_| => set_[k] + [c])
  }

  /** The product that credCandidateSet.multiply is meant to compute: the candidate varies slowest. */
  function Multiply<T>(set_: seq<seq<T>>, candidates: seq<T>): seq<seq<T>> {
    if candidates == [] then []
    else Multiply(set_, candidates[..|candidates| - 1]) + AppendAll(set_, candidates[|candidates| - 1])
  }

  function CartesianProduct<T>(candidates: seq<seq<T>>): seq<seq<T>> {
    if candidates == [] then [[]]
    else Multiply(CartesianProduct(candidates[..|candidates| - 1]), candidates[|candidates| - 1])
  }

  function ProductOfSizes<T>(candidates: seq<seq<T>>): nat {
    if candidates == [] then 1
    else ProductOfSizes(candidates[..|candidates| - 1]) * |candidates[|candidates| - 1]|
  }

  // ---------------------------------------------------------------- slices that share their arrays

  /** A Go slice: the first `len` cells of an array, whose length is its capacity. */
  datatype Slice<T> = Slice(arr: array<T>, len: nat)

  /** How the runtime grows a full slice; it always makes room for one more element. */
  ghost predicate Grows(grow: nat -> nat) { forall n: nat :: grow(n) > n }

  type Growth = grow: nat -> nat | Grows(grow) witness (n: nat) => n + 1

  /** The capacity of a slice that was grown from nothing to `k` elements one by one. */
  ghost function Capacity(grow: Growth, k: nat): (c: nat)
    ensures c >= k
  {
    if k == 0 then 0
    else
      var c := Capacity(grow, k - 1);
      if c > k - 1 then c else grow(k - 1)
  }

  /** A slice of `k` elements has room for one more, so that appending to it does not copy it. */
  ghost predicate Spare(grow: Growth, k: nat)
  {
    Capacity(grow, k) > k
  }

  function Repeat<T>(x: T, n: nat): (r: seq<T>)
    ensures |r| == n
  {
    seq(n, _ => x)
  }

  /** What is left of a list of candidates: appended to the same array one after the other, each overwrites
      the one before, and all of them end up as the last. */
  function Overwritten<T>(candidates: seq<T>, spare: bool): (r: seq<T>)
    ensures |r| == |candidates|
  {
    if spare && candidates != [] then Repeat(candidates[|candidates| - 1], |candidates|) else candidates
  }

  lemma OverwrittenMember<T>(candidates: seq<T>, spare: bool, x: T)
    requires x in Overwritten(candidates, spare)
    ensures x in candidates && (spare ==> x == candidates[|candidates| - 1])
  {
  }

  ghost function Shown<T>(candidates: seq<seq<T>>, grow: Growth): (r: seq<seq<T>>)
    ensures |r| == |candidates|
  {
    seq(|candidates|, k requires 0 <= k < |candidates| => Overwritten(candidates[k], Spare(grow, k)))
  }

  /** What cartesianProduct returns. */
  ghost function Listing<T>(candidates: seq<seq<T>>, grow: Growth): seq<seq<T>>
  {
    CartesianProduct(Shown(candidates, grow))
  }

  ghost predicate Uniform<T>(slices: seq<Slice<T>>, n: nat, cap: nat) {
    n <= cap && forall k :: 0 <= k < |slices| ==> slices[k].len == n && slices[k].arr.Length == cap
  }

  ghost function Arrays<T>(slices: seq<Slice<T>>): set<object> {
    set k | 0 <= k < |slices| :: slices[k].arr as object
  }

  ghost function Views<T>(slices: seq<Slice<T>>, n: nat, cap: nat): (r: seq<seq<T>>)
    requires Uniform(slices, n, cap)
    reads Arrays(slices)
    ensures |r| == |slices|
  {
    seq(|slices|, k requires 0 <= k < |slices| reads Arrays(slices) => slices[k].arr[..n])
  }

  /** The built-in append. */
  method Append<T>(s: Slice<T>, x: T, grow: Growth) returns (r: Slice<T>)
    requires s.len <= s.arr.Length
    modifies s.arr
    ensures r.len == s.len + 1
    ensures forall i :: 0 <= i < s.arr.Length && i != s.len ==> s.arr[i] == old(s.arr[i])
    ensures if s.len < s.arr.Length then r.arr == s.arr && s.arr[s.len] == x
            else fresh(r.arr) && r.arr.Length == grow(s.len) && r.arr[..s.len + 1] == old(s.arr[..]) + [x]
  {
    if s.len < s.arr.Length {
      s.arr[s.len] := x;
      return Slice(s.arr, s.len + 1);
    }
    var copy := new T[grow(s.len)](_ => x);
    for i := 0 to s.len
      invariant forall k :: 0 <= k < i ==> copy[k] == s.arr[k]
      invariant copy[s.len] == x && fresh(copy)
      invariant forall k :: 0 <= k < s.arr.Length ==> s.arr[k] == old(s.arr[k])
    {
      copy[i] := s.arr[i];
    }
    return Slice(copy, s.len + 1);
  }

  function CapacityAfter(grow: Growth, n: nat, cap: nat): nat { if cap > n then cap else grow(n) }

  /** The inner loop of multiply: one candidate appended to every slice. Where there is room this writes into
      the arrays of the slices, past their ends; otherwise it copies them. */
  method AppendToAll<T>(slices: seq<Slice<T>>, x: T, grow: Growth, ghost n: nat, ghost cap: nat)
    returns (block: seq<Slice<T>>)
    requires Uniform(slices, n, cap)
    modifies Arrays(slices)
    ensures |block| == |slices|
    ensures forall k :: 0 <= k < |slices| ==> slices[k].arr[..n] == old(slices[k].arr[..n])
    ensures cap > n ==>
      forall k :: 0 <= k < |slices| ==> block[k] == Slice(slices[k].arr, n + 1) && slices[k].arr[n] == x
    ensures cap == n ==> Uniform(block, n + 1, grow(n)) && forall k :: 0 <= k < |slices| ==>
      fresh(block[k].arr) && block[k].arr[..n + 1] == old(slices[k].arr[..n]) + [x]
  {
    block := [];
    for i := 0 to |slices|
      invariant |block| == i
      invariant forall k :: 0 <= k < |slices| ==> slices[k].arr[..n] == old(slices[k].arr[..n])
      invariant cap > n ==> forall k :: 0 <= k < i ==> block[k] == Slice(slices[k].arr, n + 1) && slices[k].arr[n] == x
      invariant cap == n ==> forall k :: 0 <= k < i ==>
        block[k].len == n + 1 && block[k].arr.Length == grow(n) && fresh(block[k].arr)
        && block[k].arr[..n + 1] == old(slices[k].arr[..n]) + [x]
    {
      label before:
      assert slices[i].arr as object in Arrays(slices);
      assert slices[i].arr[..n] == old(slices[i].arr[..n]);
      var s := Append(slices[i], x, grow);
      forall k | 0 <= k < |slices| ensures slices[k].arr[..n] == old(slices[k].arr[..n]) {
        assert slices[k].arr[..n] == old@before(slices[k].arr[..n]);
      }
      block := block + [s];
    }
  }

  lemma ViewsAppend<T>(a: seq<Slice<T>>, b: seq<Slice<T>>, n: nat, cap: nat)
    requires Uniform(a, n, cap) && Uniform(b, n, cap)
    ensures Uniform(a + b, n, cap) && Views(a + b, n, cap) == Views(a, n, cap) + Views(b, n, cap)
  {
  }

  ghost function Blocks<T>(block: seq<T>, m: nat): seq<T> { if m == 0 then [] else Blocks(block, m - 1) + block }

  /** The same block of slices listed `m` times. */
  lemma {:induction false} BlocksView<T>(block: seq<Slice<T>>, m: nat, n: nat, cap: nat, before: seq<seq<T>>, x: T)
    requires Uniform(block, n, cap) && Views(block, n, cap) == AppendAll(before, x)
    ensures Uniform(Blocks(block, m), n, cap)
    ensures Views(Blocks(block, m), n, cap) == Multiply(before, Repeat(x, m))
  {
    if m > 0 {
      BlocksView(block, m - 1, n, cap, before, x);
      ViewsAppend(Blocks(block, m - 1), block, n, cap);
      assert Repeat(x, m)[..m - 1] == Repeat(x, m - 1);
    }
  }

  lemma {:induction false} BlocksArrays<T>(block: seq<Slice<T>>, m: nat)
    ensures Arrays(Blocks(block, m)) <= Arrays(block)
  {
    if m > 0 {
      BlocksArrays(block, m - 1);
      forall o | o in Arrays(Blocks(block, m)) ensures o in Arrays(block) {
        var all := Blocks(block, m);
        var k :| 0 <= k < |all| && all[k].arr as object == o;
        if k < |Blocks(block, m - 1)| {
          assert o in Arrays(Blocks(block, m - 1));
        } else {
          assert block[k - |Blocks(block, m - 1)|].arr as object == o;
        }
      }
    }
  }

  /** What multiply has listed after some candidates: where there is room the same slices over and over,
      all showing the candidate written last; otherwise a copy for every combination. */
  ghost predicate Listed<T(!new)>(slices: seq<Slice<T>>, result: seq<Slice<T>>, done: seq<T>, grow: Growth,
                                  n: nat, cap: nat, before: seq<seq<T>>)
    requires Uniform(slices, n, cap)
    reads Arrays(slices), Arrays(result)
  {
    && Views(slices, n, cap) == before
    && (if cap > n
        then && result == Blocks(Extended(slices, n), |done|)
             && (done != [] ==> forall k :: 0 <= k < |slices| ==> slices[k].arr[n] == done[|done| - 1])
        else Uniform(result, n + 1, grow(n)) && Views(result, n + 1, grow(n)) == Multiply(before, done))
  }

  ghost function Extended<T>(slices: seq<Slice<T>>, n: nat): (r: seq<Slice<T>>)
    ensures |r| == |slices|
  {
    seq(|slices|, k requires 0 <= k < |slices| => Slice(slices[k].arr, n + 1))
  }

  lemma ListMore<T(!new)>(slices: seq<Slice<T>>, result: seq<Slice<T>>, done: seq<T>, x: T, more: seq<Slice<T>>,
                          grow: Growth, n: nat, cap: nat, before: seq<seq<T>>)
    requires Uniform(slices, n, cap) && Views(slices, n, cap) == before && |more| == |slices|
    requires cap > n ==> result == Blocks(Extended(slices, n), |done|)
    requires cap > n ==>
      forall k :: 0 <= k < |slices| ==> more[k] == Slice(slices[k].arr, n + 1) && slices[k].arr[n] == x
    requires cap == n ==> Uniform(result, n + 1, grow(n)) && Views(result, n + 1, grow(n)) == Multiply(before, done)
    requires cap == n ==>
      Uniform(more, n + 1, grow(n)) && forall k :: 0 <= k < |slices| ==> more[k].arr[..n + 1] == before[k] + [x]
    ensures Listed(slices, result + more, done + [x], grow, n, cap, before)
  {
    if cap > n {
      assert more == Extended(slices, n);
    } else {
      assert Views(more, n + 1, grow(n)) == AppendAll(before, x);
      ViewsAppend(result, more, n + 1, grow(n));
      assert (done + [x])[..|done|] == done;
    }
  }

  lemma AllListed<T(!new)>(slices: seq<Slice<T>>, result: seq<Slice<T>>, done: seq<T>, grow: Growth,
                           n: nat, cap: nat, before: seq<seq<T>>)
    requires Uniform(slices, n, cap) && Listed(slices, result, done, grow, n, cap, before)
    ensures Uniform(result, n + 1, CapacityAfter(grow, n, cap))
    ensures Views(result, n + 1, CapacityAfter(grow, n, cap)) == Multiply(before, Overwritten(done, cap > n))
  {
    if cap > n && done != [] {
      var block, last := Extended(slices, n), done[|done| - 1];
      forall k | 0 <= k < |block| ensures block[k].arr[..n + 1] == before[k] + [last] {
        assert slices[k].arr[..n] == before[k];
      }
      assert Views(block, n + 1, cap) == AppendAll(before, last);
      BlocksView(block, |done|, n + 1, cap, before, last);
    }
  }

  lemma SameArrays<T>(a: seq<Slice<T>>, b: seq<Slice<T>>)
    requires |a| == |b| && forall k :: 0 <= k < |a| ==> a[k].arr == b[k].arr
    ensures Arrays(a) == Arrays(b)
  {
  }

  /** credCandidateSet.multiply */
  method ComputeMultiply<T(!new)>(slices: seq<Slice<T>>, candidates: seq<T>, grow: Growth, ghost n: nat, ghost cap: nat)
    returns (result: seq<Slice<T>>)
    requires Uniform(slices, n, cap)
    modifies Arrays(slices)
    ensures Uniform(result, n + 1, CapacityAfter(grow, n, cap))
    ensures Views(result, n + 1, CapacityAfter(grow, n, cap)) ==
            Multiply(old(Views(slices, n, cap)), Overwritten(candidates, cap > n))
    ensures forall k :: 0 <= k < |result| ==> fresh(result[k].arr) || result[k].arr as object in Arrays(slices)
  {
    ghost var before := Views(slices, n, cap);
    result := [];
    for i := 0 to |candidates|
      invariant Listed(slices, result, candidates[..i], grow, n, cap, before)
      invariant cap == n ==> Arrays(result) !! Arrays(slices)
      invariant cap == n ==> forall k :: 0 <= k < |result| ==> fresh(result[k].arr)
    {
      assert candidates[..i + 1] == candidates[..i] + [candidates[i]];
      var more := AppendToAll(slices, candidates[i], grow, n, cap);
      assert Views(slices, n, cap) == before;
      ListMore(slices, result, candidates[..i], candidates[i], more, grow, n, cap, before);
      result := result + more;
    }
    assert candidates[..|candidates|] == candidates;
    AllListed(slices, result, candidates, grow, n, cap, before);
    if cap > n {
      BlocksArrays(Extended(slices, n), |candidates|);
      SameArrays(Extended(slices, n), slices);
    }
  }

  /** cartesianProduct */
  method ComputeCartesianProduct<T(!new)>(candidates: seq<seq<T>>, grow: Growth) returns (product: seq<seq<T>>)
    ensures product == Listing(candidates, grow)
  {
    hide Listing, Multiply, Overwritten, Spare, Capacity;
    var slices, unit := Unit<T>();
    ListingOfNone(candidates, grow);
    for i := 0 to |candidates|
      invariant Uniform(slices, i, Capacity(grow, i)) && forall k :: 0 <= k < |slices| ==> fresh(slices[k].arr)
      invariant Views(slices, i, Capacity(grow, i)) == Listing(candidates[..i], grow)
    {
      ListingStep(candidates, grow, i);
      slices := ComputeMultiply(slices, candidates[i], grow, i, Capacity(grow, i));
    }
    assert candidates[..|candidates|] == candidates;
    ghost var listed := Views(slices, |candidates|, Capacity(grow, |candidates|));
    assert listed == Listing(candidates, grow);
    product := ReadAll(slices, |candidates|, Capacity(grow, |candidates|));
    assert product == listed;
  }

  /** The unit element of the multiplication: one empty slice. */
  method Unit<T>() returns (slices: seq<Slice<T>>, ghost unit: array<T>)
    ensures Uniform(slices, 0, 0) && slices == [Slice(unit, 0)] && fresh(unit) && Views(slices, 0, 0) == [[]]
  {
    var arr := new T[0];
    slices := [Slice(arr, 0)];
    unit := arr;
  }

  method ReadAll<T>(slices: seq<Slice<T>>, ghost n: nat, ghost cap: nat) returns (all: seq<seq<T>>)
    requires Uniform(slices, n, cap)
    ensures all == Views(slices, n, cap)
  {
    all := [];
    for k := 0 to |slices|
      invariant all == Views(slices, n, cap)[..k]
    {
      all := all + [slices[k].arr[..slices[k].len]];
    }
  }

  lemma ListingOfNone<T>(candidates: seq<seq<T>>, grow: Growth)
    ensures Capacity(grow, 0) == 0 && Listing(candidates[..0], grow) == [[]]
  {
  }

  lemma ListingStep<T>(candidates: seq<seq<T>>, grow: Growth, i: nat)
    requires i < |candidates|
    ensures Listing(candidates[..i + 1], grow) ==
            Multiply(Listing(candidates[..i], grow), Overwritten(candidates[i], Capacity(grow, i) > i))
    ensures Capacity(grow, i + 1) == CapacityAfter(grow, i, Capacity(grow, i))
  {
    assert candidates[..i + 1][..i] == candidates[..i];
    assert Shown(candidates[..i + 1], grow)[..i] == Shown(candidates[..i], grow);
  }

  // ---------------------------------------------------------------- what the listing contains

  /** One candidate out of each list. */
  predicate IsChoice<T(==)>(p: seq<T>, candidates: seq<seq<T>>) {
    |p| == |candidates| && forall j :: 0 <= j < |p| ==> p[j] in candidates[j]
  }

  predicate Distinct<T(==)>(s: seq<T>) {
    forall i, j :: 0 <= i < j < |s| ==> s[i] != s[j]
  }

  lemma {:induction false} MultiplyMember<T>(set_: seq<seq<T>>, candidates: seq<T>, p: seq<T>) returns (k: nat, i: nat)
    requires p in Multiply(set_, candidates)
    ensures k < |set_| && i < |candidates| && p == set_[k] + [candidates[i]]
  {
    var n := |candidates| - 1;
    if p in Multiply(set_, candidates[..n]) {
      k, i := MultiplyMember(set_, candidates[..n], p);
    } else {
      k :| 0 <= k < |set_| && AppendAll(set_, candidates[n])[k] == p;
      i := n;
    }
  }

  lemma {:induction false} MultiplyContains<T>(set_: seq<seq<T>>, candidates: seq<T>, k: nat, i: nat)
    requires k < |set_| && i < |candidates|
    ensures set_[k] + [candidates[i]] in Multiply(set_, candidates)
  {
    var n := |candidates| - 1;
    if i < n {
      MultiplyContains(set_, candidates[..n], k, i);
    } else {
      assert AppendAll(set_, candidates[n])[k] == set_[k] + [candidates[i]];
    }
  }

  lemma OneMoreTimes(a: nat, n: nat)
    ensures a * (n + 1) == a * n + a
  {
  }

  lemma {:induction false} MultiplySize<T>(set_: seq<seq<T>>, candidates: seq<T>)
    ensures |Multiply(set_, candidates)| == |set_| * |candidates|
  {
    if candidates != [] {
      var n := |candidates| - 1;
      MultiplySize(set_, candidates[..n]);
      OneMoreTimes(|set_|, n);
    }
  }

  lemma {:induction false} MultiplyDistinct<T>(set_: seq<seq<T>>, candidates: seq<T>)
    requires Distinct(set_) && Distinct(candidates)
    ensures Distinct(Multiply(set_, candidates))
  {
    if candidates != [] {
      var n := |candidates| - 1;
      MultiplyDistinct(set_, candidates[..n]);
      DistinctBlocks(set_, candidates);
    }
  }

  /** A block for a new candidate repeats nothing of the blocks before it. */
  lemma DistinctBlocks<T>(set_: seq<seq<T>>, candidates: seq<T>)
    requires Distinct(set_) && Distinct(candidates) && candidates != []
    requires Distinct(Multiply(set_, candidates[..|candidates| - 1]))
    ensures Distinct(Multiply(set_, candidates))
  {
    var n := |candidates| - 1;
    var before, block := Multiply(set_, candidates[..n]), AppendAll(set_, candidates[n]);
    forall i, j | 0 <= i < j < |block| ensures block[i] != block[j] {
      assert block[i][..|set_[i]|] == set_[i] && block[j][..|set_[j]|] == set_[j];
    }
    forall i, j | 0 <= i < |before| && 0 <= j < |block| ensures before[i] != block[j] {
      var k, c := MultiplyMember(set_, candidates[..n], before[i]);
      assert before[i][|before[i]| - 1] == candidates[c];
      assert block[j][|block[j]| - 1] == candidates[n];
    }
  }

  lemma {:induction false} ProductSound<T>(candidates: seq<seq<T>>, p: seq<T>)
    requires p in CartesianProduct(candidates)
    ensures IsChoice(p, candidates)
  {
    if candidates != [] {
      var n := |candidates| - 1;
      var init := CartesianProduct(candidates[..n]);
      var k, i := MultiplyMember(init, candidates[n], p);
      ProductSound(candidates[..n], init[k]);
      assert forall j :: 0 <= j < n ==> p[j] == init[k][j];
    }
  }

  lemma {:induction false} ProductComplete<T>(candidates: seq<seq<T>>, p: seq<T>)
    requires IsChoice(p, candidates)
    ensures p in CartesianProduct(candidates)
  {
    if candidates != [] {
      var n := |candidates| - 1;
      ProductComplete(candidates[..n], p[..n]);
      var init := CartesianProduct(candidates[..n]);
      var k :| 0 <= k < |init| && init[k] == p[..n];
      var i :| 0 <= i < |candidates[n]| && candidates[n][i] == p[n];
      assert p == p[..n] + [p[n]];
      MultiplyContains(init, candidates[n], k, i);
    } else {
      assert p == [];
    }
  }

  /** The cartesian product has every combination, and without repeats in the lists each exactly once. */
  lemma {:induction false} ProductExact<T>(candidates: seq<seq<T>>)
    ensures forall p :: p in CartesianProduct(candidates) <==> IsChoice(p, candidates)
    ensures |CartesianProduct(candidates)| == ProductOfSizes(candidates)
    ensures (forall j :: 0 <= j < |candidates| ==> Distinct(candidates[j])) ==> Distinct(CartesianProduct(candidates))
  {
    forall p ensures p in CartesianProduct(candidates) <==> IsChoice(p, candidates) {
      if p in CartesianProduct(candidates) {
        ProductSound(candidates, p);
      }
      if IsChoice(p, candidates) {
        ProductComplete(candidates, p);
      }
    }
    if candidates != [] {
      var n := |candidates| - 1;
      ProductExact(candidates[..n]);
      MultiplySize(CartesianProduct(candidates[..n]), candidates[n]);
      if forall j :: 0 <= j < |candidates| ==> Distinct(candidates[j]) {
        MultiplyDistinct(CartesianProduct(candidates[..n]), candidates[n]);
      }
    }
  }

  // ---------------------------------------------------------------- what sharing arrays does to it

  /** What is listed is always a choice of candidates, but at a place with room only the last one is. */
  lemma ListingMembers<T>(candidates: seq<seq<T>>, grow: Growth, p: seq<T>)
    ensures p in Listing(candidates, grow) <==> IsChoice(p, Shown(candidates, grow))
    ensures p in Listing(candidates, grow) ==> IsChoice(p, candidates)
  {
    var shown := Shown(candidates, grow);
    if p in Listing(candidates, grow) {
      ProductSound(shown, p);
      assert forall j :: 0 <= j < |p| ==> p[j] in shown[j];
    }
    if IsChoice(p, shown) {
      ProductComplete(shown, p);
    }
  }

  /** No list is overwritten: there is nothing to list, or every place with room has at most one candidate. */
  ghost predicate Unshared<T>(candidates: seq<seq<T>>, grow: Growth)
  {
    || (exists j :: 0 <= j < |candidates| && candidates[j] == [])
    || (forall j :: 0 <= j < |candidates| && Spare(grow, j) ==> |candidates[j]| <= 1)
  }

  /** The combinations with the first and with the second candidate. */
  lemma {:induction false} MultiplyFirst<T>(set_: seq<seq<T>>, candidates: seq<T>, k: nat)
    requires candidates != [] && k < |set_|
    ensures |Multiply(set_, candidates)| >= |set_| && Multiply(set_, candidates)[k] == set_[k] + [candidates[0]]
  {
    var n := |candidates| - 1;
    var init := Multiply(set_, candidates[..n]);
    assert Multiply(set_, candidates) == init + AppendAll(set_, candidates[n]);
    if n > 0 {
      MultiplyFirst(set_, candidates[..n], k);
      hide Multiply;
    } else {
      assert init == [];
    }
  }

  lemma {:induction false} MultiplySecond<T>(set_: seq<seq<T>>, candidates: seq<T>, k: nat)
    requires |candidates| >= 2 && k < |set_|
    ensures |Multiply(set_, candidates)| >= 2 * |set_|
    ensures Multiply(set_, candidates)[|set_| + k] == set_[k] + [candidates[1]]
  {
    var n := |candidates| - 1;
    if n > 1 {
      MultiplySecond(set_, candidates[..n], k);
    } else {
      MultiplySize(set_, candidates[..1]);
      assert |Multiply(set_, candidates[..1])| == |set_|;
    }
  }

  /** If one list repeats a candidate and none is empty, the product repeats a combination. */
  lemma {:induction false} RepeatedFactor<T>(candidates: seq<seq<T>>, j: nat)
    requires j < |candidates| && |candidates[j]| >= 2 && candidates[j][0] == candidates[j][1]
    requires forall k :: 0 <= k < |candidates| ==> candidates[k] != []
    ensures !Distinct(CartesianProduct(candidates))
  {
    var n := |candidates| - 1;
    var init := CartesianProduct(candidates[..n]);
    if j == n {
      NonemptyProduct(candidates[..n]);
      MultiplyFirst(init, candidates[n], 0);
      MultiplySecond(init, candidates[n], 0);
    } else {
      RepeatedFactor(candidates[..n], j);
      var a, b :| 0 <= a < b < |init| && init[a] == init[b];
      MultiplyFirst(init, candidates[n], a);
      MultiplyFirst(init, candidates[n], b);
    }
  }

  /** Taking the first of every list. */
  ghost function Firsts<T>(candidates: seq<seq<T>>): (p: seq<T>)
    requires forall k :: 0 <= k < |candidates| ==> candidates[k] != []
    ensures IsChoice(p, candidates)
  {
    seq(|candidates|, k requires 0 <= k < |candidates| => candidates[k][0])
  }

  lemma NonemptyProduct<T>(candidates: seq<seq<T>>)
    requires forall k :: 0 <= k < |candidates| ==> candidates[k] != []
    ensures CartesianProduct(candidates) != []
  {
    ProductComplete(candidates, Firsts(candidates));
  }

  lemma NoEmptyFactor<T>(candidates: seq<seq<T>>, p: seq<T>, j: nat)
    requires p in CartesianProduct(candidates) && j < |candidates|
    ensures candidates[j] != []
  {
    ProductSound(candidates, p);
    assert p[j] in candidates[j];
  }

  lemma EmptyFactor<T>(candidates: seq<seq<T>>, j: nat)
    requires j < |candidates| && candidates[j] == []
    ensures CartesianProduct(candidates) == []
  {
    if CartesianProduct(candidates) != [] {
      NoEmptyFactor(candidates, CartesianProduct(candidates)[0], j);
    }
  }

  lemma UnsharedIsProduct<T>(candidates: seq<seq<T>>, grow: Growth)
    requires Unshared(candidates, grow)
    ensures Listing(candidates, grow) == CartesianProduct(candidates)
  {
    hide CartesianProduct, Spare;
    var shown := Shown(candidates, grow);
    if j :| 0 <= j < |candidates| && candidates[j] == [] {
      EmptyFactor(candidates, j);
      EmptyFactor(shown, j);
    } else {
      forall k | 0 <= k < |candidates| ensures shown[k] == candidates[k] {
        if Spare(grow, k) {
          assert |candidates[k]| == 1;
        }
      }
      assert shown == candidates;
    }
  }

  /** For lists without repeats: the listing is the cartesian product, lists every combination, and lists
      none twice, each if and only if no list is overwritten. Its size is right in any case. */
  lemma ListingExact<T>(candidates: seq<seq<T>>, grow: Growth)
    requires forall j :: 0 <= j < |candidates| ==> Distinct(candidates[j])
    ensures Listing(candidates, grow) == CartesianProduct(candidates) <==> Unshared(candidates, grow)
    ensures (forall p :: IsChoice(p, candidates) ==> p in Listing(candidates, grow)) <==> Unshared(candidates, grow)
    ensures Distinct(Listing(candidates, grow)) <==> Unshared(candidates, grow)
    ensures |Listing(candidates, grow)| == ProductOfSizes(candidates)
  {
    if Unshared(candidates, grow) {
      UnsharedIsProduct(candidates, grow);
      ProductExact(candidates);
    } else {
      OverwrittenLost(candidates, grow);
    }
    ProductExact(Shown(candidates, grow));
    SameSizes(candidates, Shown(candidates, grow));
    hide CartesianProduct, ProductOfSizes, Unshared, Distinct, IsChoice, Shown;
  }

  lemma OverwrittenLost<T>(candidates: seq<seq<T>>, grow: Growth)
    requires !Unshared(candidates, grow)
    requires forall j :: 0 <= j < |candidates| ==> Distinct(candidates[j])
    ensures !Distinct(Listing(candidates, grow))
    ensures exists p :: IsChoice(p, candidates) && p !in Listing(candidates, grow)
    ensures Listing(candidates, grow) != CartesianProduct(candidates)
  {
    var j :| 0 <= j < |candidates| && Spare(grow, j) && |candidates[j]| > 1;
    assert Distinct(candidates[j]);
    hide Spare;
    OverwrittenLostAt(candidates, grow, j);
  }

  lemma OverwrittenLostAt<T>(candidates: seq<seq<T>>, grow: Growth, j: nat)
    requires j < |candidates| && Spare(grow, j)
    requires |candidates[j]| > 1 && candidates[j][0] != candidates[j][|candidates[j]| - 1]
    requires forall k :: 0 <= k < |candidates| ==> candidates[k] != []
    ensures !Distinct(Listing(candidates, grow))
    ensures exists p :: IsChoice(p, candidates) && p !in Listing(candidates, grow)
    ensures Listing(candidates, grow) != CartesianProduct(candidates)
  {
    var shown := Shown(candidates, grow);
    assert |shown[j]| == |candidates[j]| && forall k :: 0 <= k < |shown| ==> |shown[k]| == |candidates[k]|;
    var last := candidates[j][|candidates[j]| - 1];
    assert shown[j] == Repeat(last, |candidates[j]|);
    hide Spare, Shown;
    RepeatedFactor(shown, j);
    var p := Firsts(candidates);
    NotListed(candidates, shown, j, p, last);
    hide CartesianProduct, Distinct;
  }

  lemma NotListed<T>(candidates: seq<seq<T>>, shown: seq<seq<T>>, j: nat, p: seq<T>, last: T)
    requires |shown| == |candidates| && j < |shown| && IsChoice(p, candidates)
    requires shown[j] == Repeat(last, |shown[j]|) && p[j] != last
    ensures p !in CartesianProduct(shown) && p in CartesianProduct(candidates)
  {
    ProductComplete(candidates, p);
    hide CartesianProduct;
    if p in CartesianProduct(shown) {
      ProductSound(shown, p);
    }
  }

  lemma {:induction false} SameSizes<T>(a: seq<seq<T>>, b: seq<seq<T>>)
    requires |a| == |b| && forall k :: 0 <= k < |a| ==> |a[k]| == |b[k]|
    ensures ProductOfSizes(a) == ProductOfSizes(b)
  {
    if a != [] {
      SameSizes(a[..|a| - 1], b[..|b| - 1]);
    }
  }

  // ---------------------------------------------------------------- doubling

  /** How Go grows slices of up to 256 pointers. */
  function Doubling(n: nat): (m: nat)
    ensures m > n
  {
    if n == 0 then 1 else 2 * n
  }

  predicate PowerOfTwo(n: nat) { n == 1 || (n > 1 && n % 2 == 0 && PowerOfTwo(n / 2)) }

  lemma {:induction false} PowersApart(a: nat, b: nat)
    requires PowerOfTwo(a) && PowerOfTwo(b) && a <= b < 2 * a
    ensures a == b
  {
    if a > 1 {
      PowersApart(a / 2, b / 2);
    }
  }

  lemma {:induction false} DoublingCapacity(grow: Growth, k: nat)
    requires (forall n: nat :: n < k ==> grow(n) == Doubling(n)) && k > 0
    ensures PowerOfTwo(Capacity(grow, k)) && k <= Capacity(grow, k) < 2 * k
  {
    if k > 1 {
      DoublingCapacity(grow, k - 1);
      assert PowerOfTwo(2 * (k - 1)) == PowerOfTwo(k - 1);
    } else {
      assert Capacity(grow, 0) == 0;
    }
  }

  /** With doubling, room for one more is left exactly at lengths other than 0, 1, 2, 4, 8 and so on. */
  lemma SpareIff(grow: Growth, k: nat)
    requires forall n: nat :: n < k ==> grow(n) == Doubling(n)
    ensures Spare(grow, k) <==> k > 0 && !PowerOfTwo(k)
  {
    if k > 0 {
      DoublingCapacity(grow, k);
      if PowerOfTwo(k) {
        PowersApart(k, Capacity(grow, k));
      }
    }
  }

  /** With three single candidates before it, a list of two loses its first. */
  lemma SharedArraysInput(grow: Growth)
    requires forall n: nat :: n < 3 ==> grow(n) == Doubling(n)
    ensures Listing([[10], [20], [30], [41, 42]], grow) == [[10, 20, 30, 42], [10, 20, 30, 42]]
  {
    var lists: seq<seq<int>> := [[10], [20], [30], [41, 42]];
    SpareIff(grow, 0);
    SpareIff(grow, 1);
    SpareIff(grow, 2);
    SpareIff(grow, 3);
    hide Spare;
    var s: seq<seq<int>> := [[10], [20], [30], [42, 42]];
    forall k | 0 <= k < 4 ensures Shown(lists, grow)[k] == s[k] {
      assert k == 0 || k == 1 || k == 2 || k == 3;
    }
    assert Shown(lists, grow) == s;
    LastTwice();
    hide CartesianProduct, Shown;
  }

  lemma LastTwice()
    ensures CartesianProduct([[10], [20], [30], [42, 42]]) == [[10, 20, 30, 42], [10, 20, 30, 42]]
  {
    var s0: seq<seq<int>>, s1, s2, s3 := [], [[10]], [[10], [20]], [[10], [20], [30]];
    assert s1 == s0 + [[10]] && s2 == s1 + [[20]] && s3 == s2 + [[30]];
    assert [[10], [20], [30], [42, 42]] == s3 + [[42, 42]];
    assert CartesianProduct(s0) == [[]];
    hide CartesianProduct;
    OneMore(s0, [], 10, [10]);
    OneMore(s1, [10], 20, [10, 20]);
    OneMore(s2, [10, 20], 30, [10, 20, 30]);
    LastOverwrites(s3, [10, 20, 30], 42, [10, 20, 30, 42]);
  }

  lemma OneMore<T>(lists: seq<seq<T>>, p: seq<T>, x: T, q: seq<T>)
    requires CartesianProduct(lists) == [p] && q == p + [x]
    ensures CartesianProduct(lists + [[x]]) == [q]
  {
    ProductStep(lists, [x]);
    OneByOne(p, x);
  }

  lemma LastOverwrites<T>(lists: seq<seq<T>>, p: seq<T>, x: T, q: seq<T>)
    requires CartesianProduct(lists) == [p] && q == p + [x]
    ensures CartesianProduct(lists + [[x, x]]) == [q, q]
  {
    ProductStep(lists, [x, x]);
    TwoTimes(p, x);
  }

  lemma ProductStep<T>(lists: seq<seq<T>>, last: seq<T>)
    ensures CartesianProduct(lists + [last]) == Multiply(CartesianProduct(lists), last)
    ensures lists == [] ==> CartesianProduct(lists) == [[]]
  {
    assert (lists + [last])[..|lists|] == lists;
  }

  lemma OneByOne<T>(p: seq<T>, x: T)
    ensures Multiply([p], [x]) == [p + [x]]
  {
    OneFactor([p], x);
  }

  lemma TwoTimes<T>(p: seq<T>, x: T)
    ensures Multiply([p], [x, x]) == [p + [x], p + [x]]
  {
    assert [x, x][..1] == [x];
    OneByOne(p, x);
  }

  lemma OneFactor<T>(set_: seq<seq<T>>, x: T)
    ensures Multiply(set_, [x]) == AppendAll(set_, x)
  {
    assert [x][..0] == [];
    assert Multiply(set_, []) == [];
  }
}
