/** A list built by appending one rendered item per input item, in input
    order: the shape of both formatters' loops. */
module Lists {

  /** `[f(x) for x in xs]`. */
  function Map<A, B>(f: A -> B, xs: seq<A>): (ys: seq<B>)
    ensures |ys| == |xs|
  {
    if xs == [] then [] else [f(xs[0])] + Map(f, xs[1..])
  }

  /** Item `k` of the mapped list is `f` of item `k`. */
  lemma {:induction false} MapAt<A, B>(f: A -> B, xs: seq<A>, k: nat)
    requires k < |xs|
    ensures Map(f, xs)[k] == f(xs[k])
  {
    if k > 0 {
      MapAt(f, xs[1..], k - 1);
    }
  }

  /** Mapping two lists placed one after the other maps each in turn. */
  lemma {:induction false} MapConcat<A, B>(f: A -> B, a: seq<A>, b: seq<A>)
    ensures Map(f, a + b) == Map(f, a) + Map(f, b)
  {
    if a != [] {
      assert (a + b)[1..] == a[1..] + b;
      MapConcat(f, a[1..], b);
    } else {
      assert a + b == b;
    }
  }

  /** Mapping one more item appends its image: one loop step. */
  lemma MapAppend<A, B>(f: A -> B, xs: seq<A>, x: A)
    ensures Map(f, xs + [x]) == Map(f, xs) + [f(x)]
  {
    MapConcat(f, xs, [x]);
  }

  /** Cutting the input list in two cuts the mapped list at the same place. */
  lemma MapSlice<A, B>(f: A -> B, xs: seq<A>, k: nat)
    requires k <= |xs|
    ensures Map(f, xs)[..k] == Map(f, xs[..k])
    ensures Map(f, xs)[k..] == Map(f, xs[k..])
  {
    MapConcat(f, xs[..k], xs[k..]);
    assert xs[..k] + xs[k..] == xs;
  }
}
