/**
 * The chain that `calculate_chain` builds and `markov_randwalk` walks: a
 * dict from each symbol to its edge table, a dict from successor word to
 * the number of times it was seen after that symbol.
 */
module Chains {
  import opened Sampler

  /** Synthetic predecessor of the first word of every title. */
  const START: string := "_start_"
  /** Synthetic successor of the last word of every title. */
  const END: string := "_end_"

  /**
   * An edge table as `dict.items()` lists it: (successor, count) pairs in
   * insertion order. The order matters, since `weighted_choice` scans it.
   */
  type Table = seq<(string, nat)>

  /** The chain: every known symbol's edge table. */
  type Chain = map<string, Table>

  /** The keys of a table, in insertion order. */
  function Successors(t: Table): seq<string>
  {
    seq(|t|, i requires 0 <= i < |t| => t[i].0)
  }

  /** `previous.get(w, 0)`: the count of the edge to `w`, or 0 if there is none. */
  function Weight(t: Table, w: string): nat
  {
    if t == [] then 0
    else if t[0].0 == w then t[0].1
    else Weight(t[1..], w)
  }

  /** No key of a table occurs twice, as in a dict. */
  ghost predicate Distinct(ws: seq<string>)
  {
    forall i, j :: 0 <= i < j < |ws| ==> ws[i] != ws[j]
  }

  /**
   * One observation of `w` after the table's symbol: `previous[w] = 1` when
   * `w` is new to the table (appended, so last in insertion order), and
   * `previous[w] += 1` when it is already there (in place).
   */
  function Bump(t: Table, w: string): (r: Table)
    ensures Successors(r) == if w in Successors(t) then Successors(t) else Successors(t) + [w]
    ensures Weight(r, w) == Weight(t, w) + 1
    ensures forall x :: x != w ==> Weight(r, x) == Weight(t, x)
  {
    if t == [] then [(w, 1)]
    else
      assert Successors(t) == [t[0].0] + Successors(t[1..]);
      if t[0].0 == w then
        assert Successors([(w, t[0].1 + 1)] + t[1..]) == Successors(t);
        [(w, t[0].1 + 1)] + t[1..]
      else
        var rest := Bump(t[1..], w);
        assert Successors([t[0]] + rest) == [t[0].0] + Successors(rest);
        [t[0]] + rest
  }

  /** Each observation adds exactly one to the table's total count. */
  lemma {:induction false} BumpTotal(t: Table, w: string)
    ensures Total(Bump(t, w)) == Total(t) + 1
  {
    if t == [] {
      assert [(w, 1)][..0] == [];
    } else {
      TotalCons(t[0], t[1..]);
      assert [t[0]] + t[1..] == t;
      if t[0].0 == w {
        assert Bump(t, w) == [(w, t[0].1 + 1)] + t[1..];
        TotalCons((w, t[0].1 + 1), t[1..]);
      } else {
        BumpTotal(t[1..], w);
        TotalCons(t[0], Bump(t[1..], w));
      }
    }
  }

  /** An observation keeps every count at least 1: new edges start at 1, old ones only grow. */
  lemma {:induction false} BumpPositive(t: Table, w: string)
    requires forall i :: 0 <= i < |t| ==> t[i].1 >= 1
    ensures forall i :: 0 <= i < |Bump(t, w)| ==> Bump(t, w)[i].1 >= 1
  {
    if t != [] && t[0].0 != w {
      BumpPositive(t[1..], w);
    }
  }

  /** An observation keeps the keys of a table distinct. */
  lemma BumpDistinct(t: Table, w: string)
    requires Distinct(Successors(t))
    ensures Distinct(Successors(Bump(t, w)))
  {
  }

  /** The total of a table is its first weight plus the total of the rest. */
  lemma TotalCons(e: (string, nat), rest: Table)
    ensures Total([e] + rest) == e.1 + Total(rest)
  {
    TotalConcat([e], rest);
    assert [e][..0] == [];
  }

  /** A word that is not a key of the table has count 0. */
  lemma {:induction false} WeightAbsent(t: Table, w: string)
    requires w !in Successors(t)
    ensures Weight(t, w) == 0
  {
    if t != [] {
      assert Successors(t) == [t[0].0] + Successors(t[1..]);
      WeightAbsent(t[1..], w);
    }
  }

  /** The count of the edge from `s` to `t`, 0 when `s` has no table. */
  function WeightIn(c: Chain, s: string, t: string): nat
  {
    if s in c then Weight(c[s], t) else 0
  }

  /**
   * Every successor in every table, other than `END`, is itself a key of the
   * chain, so the walk's lookup `mark[newword]` cannot fail.
   */
  ghost predicate Closed(c: Chain)
  {
    forall k, w :: k in c && w in Successors(c[k]) && w != END ==> w in c
  }

  /** Every edge count is at least 1. */
  ghost predicate Positive(c: Chain)
  {
    forall k, i :: k in c && 0 <= i < |c[k]| ==> c[k][i].1 >= 1
  }

  /** Every table has distinct keys, as a dict does. */
  ghost predicate DistinctTables(c: Chain)
  {
    forall k :: k in c ==> Distinct(Successors(c[k]))
  }
}
