/**
 * `titles`: the generator that yields walks of the chain forever, skipping
 * any walk that equals the seed or was already yielded. Each pull of the
 * generator is a call of `Next`; the set `uniq` lives in the stream object.
 */
module Titles {
  import opened Wrappers
  import opened Chains
  import opened Walker

  /**
   * The title the next pull yields: the first walk that is neither the
   * seed nor in `uniq`, each walk using its own draws; a walk that fails
   * ends the pull with its error, as the exception leaves the generator.
   */
  function FirstNovel(mark: Chain, seed: string, uniq: set<string>, attempts: seq<seq<nat>>): (r: Result<string, WalkError>)
    ensures r.Ok? ==> r.value != seed && r.value !in uniq
    decreases |attempts|
  {
    if attempts == [] then Err(OutOfDraws)
    else
      match Joined(Walk(mark, seed, attempts[0]))
      case Err(e) => Err(e)
      case Ok(title) =>
        if title == seed || title in uniq then FirstNovel(mark, seed, uniq, attempts[1..])
        else Ok(title)
  }

  /** The walk made with the draws `d` produced a title that a pull discards. */
  predicate Rejected(mark: Chain, seed: string, uniq: set<string>, d: seq<nat>)
  {
    var r := Joined(Walk(mark, seed, d));
    r.Ok? && (r.value == seed || r.value in uniq)
  }

  /**
   * A yielded title is the title of one of the walks, and every walk before
   * it produced the seed or a title already yielded.
   */
  lemma {:induction false} FirstNovelIsWalk(mark: Chain, seed: string, uniq: set<string>, attempts: seq<seq<nat>>)
    ensures FirstNovel(mark, seed, uniq, attempts).Ok? ==>
      exists k :: 0 <= k < |attempts|
        && Joined(Walk(mark, seed, attempts[k])) == FirstNovel(mark, seed, uniq, attempts)
        && forall j :: 0 <= j < k ==> Rejected(mark, seed, uniq, attempts[j])
    decreases |attempts|
  {
    if attempts != [] && FirstNovel(mark, seed, uniq, attempts).Ok? {
      var r := Joined(Walk(mark, seed, attempts[0]));
      if r.Ok? && (r.value == seed || r.value in uniq) {
        FirstNovelIsWalk(mark, seed, uniq, attempts[1..]);
        var k :| 0 <= k < |attempts[1..]|
          && Joined(Walk(mark, seed, attempts[1..][k])) == FirstNovel(mark, seed, uniq, attempts[1..])
          && forall j :: 0 <= j < k ==> Rejected(mark, seed, uniq, attempts[1..][j]);
        assert Joined(Walk(mark, seed, attempts[k + 1])) == FirstNovel(mark, seed, uniq, attempts);
        assert forall j :: 0 <= j < k + 1 ==> Rejected(mark, seed, uniq, attempts[j]) by {
          forall j | 0 <= j < k + 1 ensures Rejected(mark, seed, uniq, attempts[j]) {
            if j > 0 {
              assert attempts[j] == attempts[1..][j - 1];
            }
          }
        }
      } else {
        assert Joined(Walk(mark, seed, attempts[0])) == FirstNovel(mark, seed, uniq, attempts);
      }
    }
  }

  /** One instance of the `titles(mark, seed)` generator. */
  class TitleStream {
    const mark: Chain
    const seed: string
    /** The titles yielded so far, as a set, as the generator keeps them. */
    var uniq: set<string>
    /** The titles yielded so far, in order. */
    ghost var yielded: seq<string>
    /**
     * An exception has left the generator: from then on every pull raises
     * `StopIteration`.
     */
    var finished: bool

    /** `uniq` holds exactly the yielded titles, no title was yielded twice and the seed never. */
    ghost predicate Valid()
      reads this
    {
      && uniq == (set t | t in yielded)
      && (forall i, j :: 0 <= i < j < |yielded| ==> yielded[i] != yielded[j])
      && seed !in uniq
    }

    /** `titles(mark, seed)`: a fresh generator with an empty `uniq`. */
    constructor (mark: Chain, seed: string := START)
      ensures Valid()
      ensures this.mark == mark && this.seed == seed
      ensures uniq == {} && yielded == [] && !finished
    {
      this.mark := mark;
      this.seed := seed;
      uniq := {};
      yielded := [];
      finished := false;
    }

    /**
     * One pull: walk until a title is neither the seed nor in `uniq`, add
     * it to `uniq` and yield it. `attempts` gives the draws of each walk;
     * running out of them ends the pull with `OutOfDraws`. A walk that
     * raises ends the generator: that pull fails with the walk's error and
     * every later pull with `Stopped`. Running out of draws is not an
     * exception of the generator and does not end it.
     */
    method Next(attempts: seq<seq<nat>>) returns (r: Result<string, WalkError>)
      requires Valid()
      modifies this
      ensures Valid()
      ensures old(finished) ==> r == Err(Stopped)
      ensures !old(finished) ==> r == FirstNovel(mark, seed, old(uniq), attempts)
      ensures finished <==> old(finished) || (r.Err? && r.error != OutOfDraws)
      ensures r.Ok? ==> uniq == old(uniq) + {r.value} && |uniq| == |old(uniq)| + 1
      ensures r.Ok? ==> yielded == old(yielded) + [r.value]
      ensures r.Err? ==> uniq == old(uniq) && yielded == old(yielded)
    {
      if finished {
        return Err(Stopped);
      }
      var k := 0;
      assert attempts[k..] == attempts;
      while k < |attempts|
        invariant 0 <= k <= |attempts|
        invariant uniq == old(uniq) && yielded == old(yielded) && !finished
        invariant FirstNovel(mark, seed, uniq, attempts) == FirstNovel(mark, seed, uniq, attempts[k..])
      {
        assert attempts[k..][1..] == attempts[k + 1..];
        var title := RandWalk(mark, seed, attempts[k]);
        if title.Err? {
          finished := title.error != OutOfDraws;
          return Err(title.error);
        }
        if title.value == seed || title.value in uniq {
          k := k + 1;
          continue;
        }
        uniq := uniq + {title.value};
        yielded := yielded + [title.value];
        return Ok(title.value);
      }
      return Err(OutOfDraws);
    }
  }
}
