/** What `markov_randwalk` promises about the words it produces. */
module WalkerProps {
  import opened Wrappers
  import opened Sampler
  import opened Chains
  import opened Builder
  import opened BuilderProps
  import opened Walker

  /** Each symbol of `p` but the last has a table, and the next symbol is one of its successors. */
  ghost predicate IsPath(mark: Chain, p: seq<string>)
  {
    forall i :: 0 <= i < |p| - 1 ==> p[i] in mark && p[i + 1] in Successors(mark[p[i]])
  }

  /** A step only ever draws a successor of the table it scans. */
  lemma StepIsSuccessor(t: Table, d: nat)
    ensures Step(t, d).Some? ==> Step(t, d).value in Successors(t)
  {
    TotalNonNegative(t);
    var f := FirstReachingFrom(t, Uniform(Total(t), d), 0);
    if f.Some? {
      assert Successors(t)[f.value] == t[f.value].0;
    }
  }

  /** A step from a table with an edge always draws one: `assert False` is unreachable. */
  lemma StepNeverFails(t: Table, d: nat)
    requires t != []
    ensures Step(t, d).Some?
  {
    TotalNonNegative(t);
    PickNeverFails(t, Uniform(Total(t), d));
  }

  /**
   * The walk extends the words it has, and every symbol it passes through
   * is followed, in the chain, by the next one, ending with `END`.
   */
  lemma {:induction false} WalkFromPath(mark: Chain, prev: string, title: seq<string>, draws: seq<nat>, q: seq<string>)
    requires prev in mark
    requires |q| >= 1 && q[|q| - 1] == prev && IsPath(mark, q)
    ensures WalkFrom(mark, prev, title, draws).Ok? ==>
      var ws := WalkFrom(mark, prev, title, draws).value;
      |title| <= |ws| && ws[..|title|] == title && IsPath(mark, q + ws[|title|..] + [END])
    decreases |draws|
  {
    if draws != [] {
      StepIsSuccessor(mark[prev], draws[0]);
      match Step(mark[prev], draws[0])
      case None =>
      case Some(w) =>
        if w == END {
          var p := q + title[|title|..] + [END];
          assert title[|title|..] == [];
          assert IsPath(mark, p) by {
            forall i | 0 <= i < |p| - 1 ensures p[i] in mark && p[i + 1] in Successors(mark[p[i]]) {
              if i < |q| - 1 {
                assert p[i] == q[i] && p[i + 1] == q[i + 1];
              }
            }
          }
        } else if w in mark {
          var q' := q + [w];
          assert IsPath(mark, q') by {
            forall i | 0 <= i < |q'| - 1 ensures q'[i] in mark && q'[i + 1] in Successors(mark[q'[i]]) {
              if i < |q| - 1 {
                assert q'[i] == q[i] && q'[i + 1] == q[i + 1];
              }
            }
          }
          WalkFromPath(mark, w, title + [w], draws[1..], q');
          if WalkFrom(mark, prev, title, draws).Ok? {
            var ws := WalkFrom(mark, prev, title, draws).value;
            assert ws[..|title| + 1] == title + [w];
            assert ws[..|title|] == ws[..|title| + 1][..|title|];
            assert ws[|title|..] == [w] + ws[|title| + 1..];
            assert q' + ws[|title| + 1..] + [END] == q + ws[|title|..] + [END];
          }
        }
    }
  }

  /**
   * A walk from a seed word starts with that word, and every pair of
   * consecutive symbols of the walk (`START` or the seed first, `END` last)
   * is an edge of the chain.
   */
  lemma WalkFollowsChain(mark: Chain, start: string, draws: seq<nat>)
    ensures Walk(mark, start, draws).Ok? ==>
      var ws := Walk(mark, start, draws).value;
      && (start != START ==> |ws| >= 1 && ws[0] == start)
      && IsPath(mark, (if start == START then [START] + ws else ws) + [END])
  {
    if start in mark {
      var title := if start == START then [] else [start];
      WalkFromPath(mark, start, title, draws, [start]);
      if Walk(mark, start, draws).Ok? {
        var ws := Walk(mark, start, draws).value;
        if start == START {
          assert ws[0..] == ws;
        } else {
          assert ws == [start] + ws[1..];
        }
      }
    }
  }

  /** The words so far stay free of `END`: the walk never appends the end symbol. */
  lemma {:induction false} WalkFromAvoidsEnd(mark: Chain, prev: string, title: seq<string>, draws: seq<nat>)
    requires prev in mark && END !in title
    ensures WalkFrom(mark, prev, title, draws).Ok? ==> END !in WalkFrom(mark, prev, title, draws).value
    decreases |draws|
  {
    if draws != [] {
      match Step(mark[prev], draws[0])
      case None =>
      case Some(w) =>
        if w != END && w in mark {
          WalkFromAvoidsEnd(mark, w, title + [w], draws[1..]);
        }
    }
  }

  /** The title never contains `END`, unless `END` itself is the seed. */
  lemma WalkAvoidsEnd(mark: Chain, start: string, draws: seq<nat>)
    requires start != END
    ensures Walk(mark, start, draws).Ok? ==> END !in Walk(mark, start, draws).value
  {
    if start in mark {
      WalkFromAvoidsEnd(mark, start, if start == START then [] else [start], draws);
    }
  }

  /**
   * On a chain that has a table for every successor but `END` and no empty
   * table, the walk neither hits an unknown symbol nor an exhausted scan:
   * it ends with a title or runs out of draws.
   */
  lemma {:induction false} WalkFromTotal(mark: Chain, prev: string, title: seq<string>, draws: seq<nat>)
    requires Closed(mark) && forall k :: k in mark ==> mark[k] != []
    requires prev in mark
    ensures WalkFrom(mark, prev, title, draws).Ok? || WalkFrom(mark, prev, title, draws) == Err(OutOfDraws)
    decreases |draws|
  {
    if draws != [] {
      StepNeverFails(mark[prev], draws[0]);
      StepIsSuccessor(mark[prev], draws[0]);
      var w := Step(mark[prev], draws[0]).value;
      if w != END {
        WalkFromTotal(mark, w, title + [w], draws[1..]);
      }
    }
  }

  /**
   * On a chain built from at least one title, a walk from any of its keys
   * ends with a title or runs out of draws; with no titles, a walk from
   * `START` reaches `assert False` in `weighted_choice` at its first draw.
   */
  lemma WalkOnBuiltChain(titles: seq<Option<string>>, start: string, draws: seq<nat>)
    requires ChainOf(titles).Ok? && start in ChainOf(titles).value
    ensures Processed(titles) > 0 ==>
      Walk(ChainOf(titles).value, start, draws).Ok? || Walk(ChainOf(titles).value, start, draws) == Err(OutOfDraws)
    ensures Processed(titles) == 0 && draws != [] ==>
      Walk(ChainOf(titles).value, start, draws) == Err(SamplerExhausted)
  {
    var c := ChainOf(titles).value;
    ChainIsSound(titles);
    ChainHasStart(titles);
    if Processed(titles) > 0 {
      ChainTablesFilled(titles);
      WalkFromTotal(c, start, if start == START then [] else [start], draws);
    } else if draws != [] {
      assert c == map[START := []];
    }
  }
}
