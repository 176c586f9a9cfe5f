// The few Python built-ins the rule-based agent relies on, given the meaning
// CPython gives them: subscripting with negative indices, `zip`, `range` and
// building a `dict` from a sequence of pairs.

module Python {

  /** The outcome of evaluating an expression that may raise `IndexError`. */
  datatype Eval<+T> = IndexError | Value(v: T)

  /** `s[i]` on a Python list: negative indices count from the end. */
  function Subscript<T>(s: seq<T>, i: int): (r: Eval<T>)
    ensures r.Value? <==> -|s| <= i < |s|
    ensures 0 <= i < |s| ==> r == Value(s[i])
    ensures -|s| <= i < 0 ==> r == Value(s[|s| + i])
  {
    if 0 <= i < |s| then Value(s[i])
    else if -|s| <= i < 0 then Value(s[|s| + i])
    else IndexError
  }

  /** A negative index reaches the same element as the non-negative index
      `len(s)` places further on. */
  lemma SubscriptFromEnd<T>(s: seq<T>, i: int)
    requires 0 <= i < |s|
    ensures Subscript(s, i - |s|) == Subscript(s, i) == Value(s[i])
  {
  }

  /** `list(range(n))`. */
  function Range(n: nat): (r: seq<int>)
    ensures |r| == n
    ensures forall i :: 0 <= i < n ==> r[i] == i
  {
    seq(n, i => i)
  }

  /** `list(zip(a, b))`: pairs up elements and stops at the shorter input. */
  function Zip<A, B>(a: seq<A>, b: seq<B>): (r: seq<(A, B)>)
    ensures |r| == if |a| <= |b| then |a| else |b|
    ensures forall i :: 0 <= i < |r| ==> r[i] == (a[i], b[i])
  {
    seq(if |a| <= |b| then |a| else |b|, i requires 0 <= i < |a| && i < |b| => (a[i], b[i]))
  }

  /** Projecting the pairs of `zip(a, b)` gives back `a` and `b`, each cut
      to the length of the shorter. */
  lemma ZipUnzip<A, B>(a: seq<A>, b: seq<B>)
    ensures var n := if |a| <= |b| then |a| else |b|;
      |Zip(a, b)| == n &&
      seq(n, k requires 0 <= k < n => Zip(a, b)[k].0) == a[..n] &&
      seq(n, k requires 0 <= k < n => Zip(a, b)[k].1) == b[..n]
  {
  }

  /** `dict(pairs)`: entries are inserted left to right, so a later pair
      overwrites an earlier one with the same key. */
  function DictOf<K, V>(pairs: seq<(K, V)>): map<K, V>
  {
    if pairs == [] then map[]
    else DictOf(pairs[..|pairs| - 1])[pairs[|pairs| - 1].0 := pairs[|pairs| - 1].1]
  }

  predicate DistinctKeys<K(==), V>(pairs: seq<(K, V)>)
  {
    forall i, j :: 0 <= i < j < |pairs| ==> pairs[i].0 != pairs[j].0
  }

  /** The keys of `dict(pairs)` are exactly the keys occurring in `pairs`. */
  lemma {:induction false} DictOfKeys<K, V>(pairs: seq<(K, V)>)
    ensures DictOf(pairs).Keys == set i | 0 <= i < |pairs| :: pairs[i].0
  {
    if pairs != [] {
      var init := pairs[..|pairs| - 1];
      DictOfKeys(init);
      assert forall i :: 0 <= i < |init| ==> init[i] == pairs[i];
    }
  }

  /** With pairwise-distinct keys, `dict(pairs)` maps each key to the value
      paired with it. */
  lemma {:induction false} DictOfLookup<K, V>(pairs: seq<(K, V)>, i: nat)
    requires DistinctKeys(pairs)
    requires i < |pairs|
    ensures pairs[i].0 in DictOf(pairs)
    ensures DictOf(pairs)[pairs[i].0] == pairs[i].1
  {
    var init := pairs[..|pairs| - 1];
    if i < |pairs| - 1 {
      assert DistinctKeys(init) by {
        forall a, b | 0 <= a < b < |init| ensures init[a].0 != init[b].0 {
          assert init[a] == pairs[a] && init[b] == pairs[b];
        }
      }
      DictOfLookup(init, i);
      assert init[i] == pairs[i];
    }
  }
}
