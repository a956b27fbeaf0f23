/** Concrete runs of the model on small inputs. */
module Scenarios {
  import opened Wrappers
  import opened Text
  import opened Sampler
  import opened Chains
  import opened Builder
  import opened BuilderProps
  import opened Walker

  /** A word new to the chain gets an edge of count 1 and an empty table of its own. */
  lemma AddFreshWord(c: Chain, prev: string, w: string)
    requires prev in c && c[prev] == [] && w !in c
    ensures AddWord(c, prev, w) == Ok(c[prev := [(w, 1)]][w := []])
  {
    assert Successors([]) == [];
  }

  /** A title whose words end at `last` is closed by an `END` edge from `last`. */
  lemma TitleClosed(c: Chain, title: string, c': Chain, last: string)
    requires START in c && last in c'
    requires AddWords(c, START, Split(title)) == Ok((c', last))
    ensures AddTitle(c, title) == Ok(c'[last := Bump(c'[last], END)])
  {
  }

  /** The chain of the single title "the godfather". */
  function GodfatherChain(): Chain
  {
    map[START := [("the", 1)], "the" := [("godfather", 1)], "godfather" := [(END, 1)]]
  }

  /** "the godfather" splits into its two words. */
  lemma SplitGodfather()
    ensures Split("the godfather") == ["the", "godfather"]
  {
    assert Join(["the", "godfather"]) == "the godfather";
    SplitJoin(["the", "godfather"]);
  }

  /** The chain after the words of "the godfather", before `END` is counted. */
  function GodfatherWords(): Chain
  {
    map[START := [("the", 1)], "the" := [("godfather", 1)], "godfather" := []]
  }

  /** The inner loop over the words of "the godfather". */
  lemma GodfatherWordsAdded()
    ensures AddWords(Initial(), START, ["the", "godfather"]) == Ok((GodfatherWords(), "godfather"))
  {
    var c1 := Initial()[START := [("the", 1)]]["the" := []];
    AddFreshWord(Initial(), START, "the");
    var c2 := c1["the" := [("godfather", 1)]]["godfather" := []];
    AddFreshWord(c1, "the", "godfather");
    assert c2 == GodfatherWords();
    assert ["the", "godfather"][1..] == ["godfather"];
    assert ["godfather"][1..] == [];
  }

  /** Any title that splits as "the godfather" does gives the chain of that one path. */
  lemma GodfatherTitle(title: string)
    requires Split(title) == ["the", "godfather"]
    ensures AddTitle(Initial(), title) == Ok(GodfatherChain())
  {
    GodfatherWordsAdded();
    TitleClosed(Initial(), title, GodfatherWords(), "godfather");
    assert Bump([], END) == [(END, 1)];
    assert GodfatherWords()["godfather" := [(END, 1)]] == GodfatherChain();
  }

  /** The pass over a single title is that title added to the initial chain. */
  lemma ChainOfOne(title: string)
    ensures ChainOf([Some(title)]) == AddTitle(Initial(), title)
  {
    var titles := [Some(title)];
    assert titles[1..] == [];
    match AddTitle(Initial(), title)
    case Err(_) =>
    case Ok(c) => assert BuildFrom(c, titles[1..]) == Ok(c);
  }

  /** `calculate_chain(["the godfather"])` has one path: START, the, godfather, END. */
  lemma GodfatherBuilt()
    ensures ChainOf([Some("the godfather")]) == Ok(GodfatherChain())
  {
    SplitGodfather();
    GodfatherTitle("the godfather");
    ChainOfOne("the godfather");
  }

  /** A table with a single edge always draws its successor. */
  lemma StepSingle(w: string, d: nat)
    ensures Step([(w, 1)], d) == Some(w)
  {
    assert Total([(w, 1)]) == 1 by {
      assert [(w, 1)][..0] == [];
    }
    PickSingle(w, 1, Uniform(1, d));
  }

  /** Walking that chain gives "the godfather" whatever the draws, given three of them. */
  lemma GodfatherWalk(draws: seq<nat>)
    requires |draws| >= 3
    ensures Joined(Walk(GodfatherChain(), START, draws)) == Ok("the godfather")
  {
    var c := GodfatherChain();
    StepSingle(END, draws[2]);
    StepSingle("godfather", draws[1]);
    StepSingle("the", draws[0]);
    assert draws[1..][1..] == draws[2..];
    assert WalkFrom(c, "godfather", ["the", "godfather"], draws[2..]) == Ok(["the", "godfather"]);
    assert draws[1..][0] == draws[1];
    assert ["the"] + ["godfather"] == ["the", "godfather"];
    assert WalkFrom(c, "the", ["the"], draws[1..]) == Ok(["the", "godfather"]);
    assert c[START] == [("the", 1)] && "the" in c && "the" != END;
    assert [] + ["the"] == ["the"];
    assert WalkFrom(c, START, [], draws) == Ok(["the", "godfather"]);
    assert Join(["the", "godfather"]) == "the godfather";
  }

  /** The chain after the title "a": "a" follows `START` and is followed by `END`. */
  function AChain(): Chain
  {
    map[START := [("a", 1)], "a" := [(END, 1)]]
  }

  /** Any title that splits as "a" does gives that chain. */
  lemma ATitle(title: string)
    requires Split(title) == ["a"]
    ensures AddTitle(Initial(), title) == Ok(AChain())
  {
    var c1 := Initial()[START := [("a", 1)]]["a" := []];
    AddFreshWord(Initial(), START, "a");
    assert ["a"][1..] == [];
    assert AddWords(Initial(), START, ["a"]) == Ok((c1, "a"));
    assert Bump([], END) == [(END, 1)];
    assert c1["a" := [(END, 1)]] == AChain();
  }

  /** After "a", a title that splits as "a _end_" does raises `KeyError` on `END`. */
  lemma AEndTitle(title: string)
    requires Split(title) == ["a", END]
    ensures AddTitle(AChain(), title) == Err(KeyError(END))
  {
    var c := AChain();
    assert Successors(c[START]) == ["a"];
    assert Bump(c[START], "a") == [("a", 2)];
    var c3 := c[START := [("a", 2)]];
    assert AddWord(c, START, "a") == Ok(c3);
    assert Successors(c3["a"]) == [END];
    assert END !in c3;
    assert AddWord(c3, "a", END) == Err(KeyError(END));
    assert ["a", END][1..] == [END];
    assert AddWords(c, START, ["a", END]) == Err(KeyError(END));
  }

  /** The pass over two titles. */
  lemma ChainOfTwo(t1: string, t2: string)
    ensures ChainOf([Some(t1), Some(t2)]) ==
      match AddTitle(Initial(), t1)
      case Err(e) => Err(e)
      case Ok(c) => BuildFrom(c, [Some(t2)])
  {
    assert [Some(t1), Some(t2)][1..] == [Some(t2)];
  }

  /**
   * A title with the word `END` after a word that already ended a title
   * makes `calculate_chain` raise `KeyError`: `END` is a successor of "a"
   * but has no table of its own.
   */
  lemma EndWordRaises()
    ensures ChainOf([Some("a"), Some("a _end_")]) == Err(KeyError(END))
  {
    SplitWord("a");
    assert Join(["a", END]) == "a _end_";
    SplitJoin(["a", END]);
    ATitle("a");
    AEndTitle("a _end_");
    ChainOfTwo("a", "a _end_");
  }
}
