// Finite stretches of steps, for any kind of state and step, and whatever guides the steps.

module Chains {
  import opened Bytes

  /** The steps `acts`, one after another, lead from s to t. */
  ghost predicate Chain<G, S(!new), A>(next: (G, S, A, S) -> bool, g: G, s: S, acts: seq<A>, t: S)
    decreases |acts|
  {
    if acts == [] then s == t
    else exists m :: next(g, s, acts[0], m) && Chain(next, g, m, acts[1..], t)
  }

  lemma {:induction false} ChainAppend<G, S(!new), A>(next: (G, S, A, S) -> bool, g: G, s: S, acts: seq<A>, t: S,
                                                      more: seq<A>, u: S)
    requires Chain(next, g, s, acts, t) && Chain(next, g, t, more, u)
    ensures Chain(next, g, s, acts + more, u)
    decreases |acts|
  {
    if acts == [] {
      Nothing(more);
    } else {
      var m :| next(g, s, acts[0], m) && Chain(next, g, m, acts[1..], t);
      ChainAppend(next, g, m, acts[1..], t, more, u);
      assert (acts + more)[1..] == acts[1..] + more;
    }
  }

  lemma ChainSnoc<G, S(!new), A>(next: (G, S, A, S) -> bool, g: G, s: S, acts: seq<A>, t: S, a: A, u: S)
    requires Chain(next, g, s, acts, t) && next(g, t, a, u)
    ensures Chain(next, g, s, acts + [a], u)
  {
    assert [a][1..] == [];
    assert next(g, t, [a][0], u) && Chain(next, g, u, [a][1..], u);
    ChainAppend(next, g, s, acts, t, [a], u);
  }
}
