/**
 * `markov_randwalk`: a weighted random walk over the chain from a seed
 * symbol until `END` is drawn. The random draws are a parameter: the walk
 * uses one per step, so the length of the sequence bounds the walk, whose
 * termination in the source is only probabilistic.
 */
module Walker {
  import opened Wrappers
  import opened Text
  import opened Sampler
  import opened Chains

  /**
   * What makes a walk, or a pull of the `titles` generator, stop without a
   * title.
   */
  datatype WalkError =
    | StartNotFound           // `mark[start]` raises KeyError
    | UnknownSymbol(word: string)  // `mark[newword]` raises KeyError
    | SamplerExhausted        // `weighted_choice` reaches `assert False`
    | OutOfDraws              // the draws supplied ran out first
    | Stopped                 // a pull of a generator that an exception already finished: StopIteration

  /** A table's total count is never negative. */
  lemma {:induction false} TotalNonNegative(t: Table)
    ensures Total(t) >= 0
  {
    if t != [] {
      TotalNonNegative(t[..|t| - 1]);
    }
  }

  /**
   * `random.uniform(0, total)` with integer weights: the draw reduced into
   * the closed interval `[0, total]`.
   */
  function Uniform(total: int, draw: nat): (r: int)
    requires total >= 0
    ensures 0 <= r <= total
  {
    draw % (total + 1)
  }

  /** The successor the walk draws from `t` with the draw `d`. */
  function Step(t: Table, d: nat): Option<string>
  {
    TotalNonNegative(t);
    Pick(t, Uniform(Total(t), d))
  }

  /** The walk from the table of `prev`, with `title` the words so far. */
  function WalkFrom(mark: Chain, prev: string, title: seq<string>, draws: seq<nat>): Result<seq<string>, WalkError>
    requires prev in mark
    decreases |draws|
  {
    if draws == [] then Err(OutOfDraws)
    else
      match Step(mark[prev], draws[0])
      case None => Err(SamplerExhausted)
      case Some(w) =>
        if w == END then Ok(title)
        else if w !in mark then Err(UnknownSymbol(w))
        else WalkFrom(mark, w, title + [w], draws[1..])
  }

  /** The words `markov_randwalk(mark, start)` produces, or why it stops without them. */
  function Walk(mark: Chain, start: string, draws: seq<nat>): Result<seq<string>, WalkError>
  {
    if start !in mark then Err(StartNotFound)
    else WalkFrom(mark, start, if start == START then [] else [start], draws)
  }

  /** The title the walk produces: its words joined with spaces. */
  function Joined(r: Result<seq<string>, WalkError>): Result<string, WalkError>
  {
    match r
    case Ok(words) => Ok(Join(words))
    case Err(e) => Err(e)
  }

  /** `markov_randwalk`: the loop that appends drawn words to the title. */
  method RandWalk(mark: Chain, start: string, draws: seq<nat>) returns (r: Result<string, WalkError>)
    ensures r == Joined(Walk(mark, start, draws))
  {
    if start !in mark {
      return Err(StartNotFound);
    }
    var previous := mark[start];
    ghost var at := start;
    var title: seq<string> := [];
    if start != START {
      title := title + [start];
      assert title == [start];
    }
    var i := 0;
    assert draws[i..] == draws;
    while i < |draws|
      invariant 0 <= i <= |draws|
      invariant at in mark && previous == mark[at]
      invariant Walk(mark, start, draws) == WalkFrom(mark, at, title, draws[i..])
    {
      assert draws[i..][1..] == draws[i + 1..];
      TotalNonNegative(previous);
      var choice := WeightedChoice(previous, Uniform(Total(previous), draws[i]));
      if choice.None? {
        return Err(SamplerExhausted);
      }
      var newword := choice.value;
      if newword == END {
        return Ok(Join(title));
      }
      title := title + [newword];
      if newword !in mark {
        return Err(UnknownSymbol(newword));
      }
      previous := mark[newword];
      at := newword;
      i := i + 1;
    }
    return Err(OutOfDraws);
  }
}
