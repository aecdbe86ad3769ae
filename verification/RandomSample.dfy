/** Sampling without replacement through a sparse side array (randomUtil.ts). */
module RandomSample {
  import opened Bytes
  import opened ListUtil

  // ---------- the virtual array ----------

  /** Removing position x: the last element takes its place. */
  function Remove(virt: seq<nat>, x: nat): seq<nat>
    requires x < |virt|
  {
    var n := |virt| - 1;
    if x == n then virt[..n] else virt[..n][x := virt[n]]
  }

  /** The i-th random index is below the number of elements left. */
  predicate Choices(n: nat, xs: seq<nat>) {
    |xs| <= n && forall i | 0 <= i < |xs| :: xs[i] < n - i
  }

  /** What is drawn, first draw first, when each index is removed from the virtual array. */
  function Drawn(virt: seq<nat>, xs: seq<nat>): (r: seq<nat>)
    requires Choices(|virt|, xs)
    ensures |r| == |xs|
    decreases |xs|
  {
    if xs == [] then [] else [virt[xs[0]]] + Drawn(Remove(virt, xs[0]), xs[1..])
  }

  function Identity(n: nat): seq<nat> { seq(n, i => i) }

  lemma RemoveKeeps(virt: seq<nat>, x: nat)
    requires x < |virt| && NoRepeats(virt)
    ensures NoRepeats(Remove(virt, x))
    ensures forall p :: p in Remove(virt, x) <==> p in virt && p != virt[x]
  {
    var r, n := Remove(virt, x), |virt| - 1;
    forall p | p in virt && p != virt[x] ensures p in r {
      var k :| 0 <= k < |virt| && virt[k] == p;
      assert r[if k == n then x else k] == p;
    }
  }

  /** Whatever the choices, the drawn positions are pairwise distinct elements of the array. */
  lemma {:induction false} DrawnDistinct(virt: seq<nat>, xs: seq<nat>)
    requires NoRepeats(virt) && Choices(|virt|, xs)
    ensures NoRepeats(Drawn(virt, xs)) && forall p | p in Drawn(virt, xs) :: p in virt
    decreases |xs|
  {
    if xs != [] {
      RemoveKeeps(virt, xs[0]);
      var rest := Drawn(Remove(virt, xs[0]), xs[1..]);
      DrawnDistinct(Remove(virt, xs[0]), xs[1..]);
      forall j | 0 <= j < |rest| ensures rest[j] != virt[xs[0]] { assert rest[j] in rest; }
    }
  }

  function IndexOf(s: seq<nat>, p: nat): (k: nat)
    requires p in s
    ensures k < |s| && s[k] == p
  {
    if s[0] == p then 0 else 1 + IndexOf(s[1..], p)
  }

  /** The choices that draw `target`. */
  function ChoicesFor(virt: seq<nat>, target: seq<nat>): seq<nat>
    requires NoRepeats(virt) && NoRepeats(target) && forall p | p in target :: p in virt
    decreases |target|
  {
    if target == [] then
      []
    else
      var x := IndexOf(virt, target[0]);
      RemoveKeeps(virt, x);
      [x] + ChoicesFor(Remove(virt, x), target[1..])
  }

  /** Every ordered selection of distinct positions is drawn by some choices ... */
  lemma {:induction false} SelectionReachable(virt: seq<nat>, target: seq<nat>)
    requires NoRepeats(virt) && NoRepeats(target) && forall p | p in target :: p in virt
    ensures Choices(|virt|, ChoicesFor(virt, target)) && Drawn(virt, ChoicesFor(virt, target)) == target
    decreases |target|
  {
    if target != [] {
      var x := IndexOf(virt, target[0]);
      RemoveKeeps(virt, x);
      SelectionReachable(Remove(virt, x), target[1..]);
      assert [target[0]] + target[1..] == target;
      assert ChoicesFor(virt, target)[1..] == ChoicesFor(Remove(virt, x), target[1..]);
    }
  }

  /** ... and by no others. */
  lemma {:induction false} SelectionUnique(virt: seq<nat>, xs: seq<nat>, ys: seq<nat>)
    requires NoRepeats(virt) && Choices(|virt|, xs) && Choices(|virt|, ys)
    requires Drawn(virt, xs) == Drawn(virt, ys)
    ensures xs == ys
    decreases |xs|
  {
    assert |xs| == |Drawn(virt, xs)| == |Drawn(virt, ys)| == |ys|;
    if xs != [] {
      assert virt[xs[0]] == Drawn(virt, xs)[0] == Drawn(virt, ys)[0] == virt[ys[0]];
      assert xs[0] == ys[0];
      RemoveKeeps(virt, xs[0]);
      assert Drawn(virt, xs)[1..] == Drawn(virt, ys)[1..];
      SelectionUnique(Remove(virt, xs[0]), xs[1..], ys[1..]);
      assert xs == [xs[0]] + xs[1..] && ys == [ys[0]] + ys[1..];
    }
  }

  /** Sampling k of n positions: the choice sequences are in one-to-one correspondence with the ordered selections. */
  lemma SamplingIsBijective(n: nat, target: seq<nat>)
    requires NoRepeats(target) && forall p | p in target :: p < n
    ensures exists xs :: Choices(n, xs) && Drawn(Identity(n), xs) == target
    ensures forall xs, ys |
      Choices(n, xs) && Choices(n, ys) && Drawn(Identity(n), xs) == target == Drawn(Identity(n), ys) :: xs == ys
  {
    forall p | p in target ensures p in Identity(n) { assert Identity(n)[p] == p; }
    SelectionReachable(Identity(n), target);
    forall xs, ys | Choices(n, xs) && Choices(n, ys) && Drawn(Identity(n), xs) == target == Drawn(Identity(n), ys)
      ensures xs == ys
    {
      SelectionUnique(Identity(n), xs, ys);
    }
  }

  function Reversed<T>(s: seq<T>): (r: seq<T>)
    ensures |r| == |s| && forall i | 0 <= i < |s| :: r[i] == s[|s| - 1 - i]
  {
    seq(|s|, i requires 0 <= i < |s| => s[|s| - 1 - i])
  }

  lemma ReversedDistinct<T>(s: seq<T>)
    requires NoRepeats(s)
    ensures NoRepeats(Reversed(s))
  {
  }

  // ---------- the sparse loop ----------

  /** `taken` lists only the slots whose content is no longer their own index. */
  function Slot(taken: map<nat, nat>, x: nat): nat { if x in taken then taken[x] else x }

  /** The sparse array stands for the virtual one. */
  predicate Represents(taken: map<nat, nat>, virt: seq<nat>) {
    forall x | 0 <= x < |virt| :: virt[x] == Slot(taken, x)
  }

  lemma NothingTaken(n: nat)
    ensures Represents(map[], Identity(n))
  {
  }

  lemma DrawnUnrolled(virt: seq<nat>, xs: seq<nat>)
    requires Choices(|virt|, xs)
    ensures if xs == [] then Drawn(virt, xs) == []
      else xs[0] < |virt| && Choices(|virt| - 1, xs[1..]) && |Remove(virt, xs[0])| == |virt| - 1
           && Drawn(virt, xs) == [virt[xs[0]]] + Drawn(Remove(virt, xs[0]), xs[1..])
  {
  }

  // One turn: the next element drawn moves to the drawn ones.
  lemma DrawOne(virt: seq<nat>, left: seq<nat>, drawn: seq<nat>, all: seq<nat>)
    requires left != [] && Choices(|virt|, left) && drawn + Drawn(virt, left) == all
    ensures left[0] < |virt| && Choices(|virt| - 1, left[1..]) && |Remove(virt, left[0])| == |virt| - 1
    ensures virt[left[0]] in all
    ensures (drawn + [virt[left[0]]]) + Drawn(Remove(virt, left[0]), left[1..]) == all
  {
    DrawnUnrolled(virt, left);
    hide Drawn, Remove, Choices;
    assert all[|drawn|] == virt[left[0]];
  }

  lemma TakenSimulatesRemoval(taken: map<nat, nat>, virt: seq<nat>, x: nat)
    requires Represents(taken, virt) && x < |virt|
    ensures Slot(taken, x) == virt[x]
    ensures Represents(taken[x := Slot(taken, |virt| - 1)], Remove(virt, x))
  {
  }

  /** `rnd` are the values of Math.floor(Math.random() * len). None when more elements are asked for than exist. */
  method GetRandomSubArray<T(0)>(source: seq<T>, subArraySize: nat, rnd: seq<nat>) returns (r: Option<seq<T>>)
    requires |rnd| == subArraySize && (subArraySize <= |source| ==> Choices(|source|, rnd))
    ensures r.None? <==> subArraySize > |source|
    ensures r.Some? ==> |r.value| == subArraySize
    ensures r.Some? ==>
      var positions := Reversed(Drawn(Identity(|source|), rnd));
      && NoRepeats(positions)
      && forall i | 0 <= i < subArraySize :: positions[i] < |source| && r.value[i] == source[positions[i]]
  {
    hide Drawn, Remove, Slot, Represents, Choices;
    var len := |source|;
    if subArraySize > len {
      return None;
    }
    var result := new T[subArraySize];
    var taken: map<nat, nat> := map[];
    var size := subArraySize;
    ghost var drawn: seq<nat> := [];
    ghost var virt, left := Identity(len), rnd;
    ghost var all := Drawn(virt, rnd);
    DrawnDistinct(virt, rnd);
    NothingTaken(len);
    while size != 0
      invariant size <= subArraySize && len == |virt| && |left| == size && left == rnd[subArraySize - size..]
      invariant Choices(len, left) && drawn + Drawn(virt, left) == all && |drawn| == subArraySize - size
      invariant Represents(taken, virt)
      invariant forall j | 0 <= j < |drawn| ::
        drawn[j] < |source| && result[subArraySize - 1 - j] == source[drawn[j]]
    {
      var x := rnd[subArraySize - size];
      DrawOne(virt, left, drawn, all);
      assert virt[x] in Identity(|source|);
      TakenSimulatesRemoval(taken, virt, x);
      size := size - 1;
      result[size] := source[Slot(taken, x)];
      len := len - 1;
      taken := taken[x := Slot(taken, len)];
      drawn, virt, left := drawn + [virt[x]], Remove(virt, x), left[1..];
    }
    DrawnUnrolled(virt, left);
    assert drawn == all;
    ReversedDistinct(all);
    return Some(result[..]);
  }
}
