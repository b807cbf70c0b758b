/**
 * The two query shapes the controllers use over a collection: `findOne` (the first
 * record satisfying a filter, in stored order) and `find` (every record satisfying it).
 */
module Collections {
  import opened Common

  /** `findOne(filter)`: the position of the first record that satisfies `p`, if any. */
  function FindFirst<T>(s: seq<T>, p: T -> bool): (r: Option<nat>)
    ensures r.Some? ==> r.value < |s| && p(s[r.value])
    ensures r.Some? ==> forall j | 0 <= j < r.value :: !p(s[j])
    ensures r.None? <==> forall j | 0 <= j < |s| :: !p(s[j])
  {
    if |s| == 0 then None
    else if p(s[0]) then Some(0)
    else match FindFirst(s[1..], p)
      case None => None
      case Some(k) => Some(k + 1)
  }

  /** Two collections whose records answer the two filters alike give the same `findOne`. */
  lemma {:induction false} FindFirstAgrees<T, U>(s: seq<T>, p: T -> bool, t: seq<U>, q: U -> bool)
    requires |s| == |t|
    requires forall j | 0 <= j < |s| :: p(s[j]) == q(t[j])
    ensures FindFirst(s, p) == FindFirst(t, q)
  {
  }

  /** `findOne` over a collection with one more record at the end. */
  lemma {:induction false} FindFirstAppend<T>(s: seq<T>, x: T, p: T -> bool)
    ensures FindFirst(s + [x], p) ==
              if FindFirst(s, p).Some? then FindFirst(s, p)
              else if p(x) then Some(|s|)
              else None
    decreases |s|
  {
    var t := s + [x];
    if |s| == 0 {
      assert t == [x] && t[1..] == [];
    } else {
      assert t[0] == s[0] && t[1..] == s[1..] + [x];
      FindFirstAppend(s[1..], x, p);
    }
  }

  /**
   * Concatenation is associative. Stated as a lemma so that the step is proved in a small
   * context of its own rather than in a large inductive proof.
   */
  lemma {:induction false} AppendAssociative<T>(a: seq<T>, b: seq<T>, c: seq<T>)
    ensures (a + b) + c == a + (b + c)
  {
  }

  /** `find(filter)`: the records that satisfy `p`, in stored order, each as often as it is stored. */
  function Filter<T(!new)>(s: seq<T>, p: T -> bool): (r: seq<T>)
    ensures |r| <= |s|
    ensures forall x :: multiset(r)[x] == if p(x) then multiset(s)[x] else 0
  {
    if |s| == 0 then []
    else
      var rest := Filter(s[1..], p);
      assert s == [s[0]] + s[1..];
      if p(s[0]) then [s[0]] + rest else rest
  }

  /** A record is in the result of `find` exactly when it is stored and satisfies the filter. */
  lemma {:induction false} FilterMembership<T(!new)>(s: seq<T>, p: T -> bool, x: T)
    ensures x in Filter(s, p) <==> x in s && p(x)
  {
    assert x in Filter(s, p) <==> multiset(Filter(s, p))[x] > 0;
    assert x in s <==> multiset(s)[x] > 0;
  }
}
