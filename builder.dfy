/**
 * `calculate_chain`: one pass over the cleaned titles that counts, for
 * every symbol, how often each word follows it. The functions below state
 * the pass one observation at a time; `CalculateChain` is the nested loop
 * of the source, proved to compute them.
 */
module Builder {
  import opened Wrappers
  import opened Text
  import opened Chains

  /**
   * The `KeyError` that `previous = mark[word]` raises when `word` was
   * already a successor of `previous` but has no table of its own (only
   * possible for a title word equal to `END`).
   */
  datatype BuildError = KeyError(word: string)

  /** The chain before any title: `{'_start_': {}}`. */
  function Initial(): Chain
  {
    map[START := []]
  }

  /**
   * One word `w` seen after the symbol `prev`: count the edge, give `w` a
   * table if the edge is new and `w` has none, and look up `w`'s table.
   */
  function AddWord(c: Chain, prev: string, w: string): (r: Result<Chain, BuildError>)
    requires prev in c
    ensures r.Ok? ==> r.value.Keys == c.Keys + {w}
    ensures r.Err? <==> w in Successors(c[prev]) && w !in c
  {
    var t := c[prev];
    if w !in Successors(t) then
      var c' := c[prev := Bump(t, w)];
      Ok(if w !in c' then c'[w := []] else c')
    else
      var c' := c[prev := Bump(t, w)];
      if w in c' then Ok(c') else Err(KeyError(w))
  }

  /**
   * The words of one title, fed after `prev`, up to the first empty piece
   * (two spaces in a row end the words of a title). Returns the chain and
   * the symbol whose table is `previous` at the end.
   */
  function AddWords(c: Chain, prev: string, pieces: seq<string>): (r: Result<(Chain, string), BuildError>)
    requires prev in c
    ensures r.Ok? ==> c.Keys <= r.value.0.Keys && r.value.1 in r.value.0
    decreases |pieces|
  {
    if pieces == [] || pieces[0] == "" then Ok((c, prev))
    else
      match AddWord(c, prev, pieces[0])
      case Err(e) => Err(e)
      case Ok(c') => AddWords(c', pieces[0], pieces[1..])
  }

  /** One title: its words after `START`, then `END` after its last word. */
  function AddTitle(c: Chain, title: string): (r: Result<Chain, BuildError>)
    requires START in c
    ensures r.Ok? ==> c.Keys <= r.value.Keys
  {
    match AddWords(c, START, Split(title))
    case Err(e) => Err(e)
    case Ok((c', last)) => Ok(c'[last := Bump(c'[last], END)])
  }

  /** The titles in order, up to the first `None`, which stops the pass. */
  function BuildFrom(c: Chain, titles: seq<Option<string>>): (r: Result<Chain, BuildError>)
    requires START in c
    ensures r.Ok? ==> c.Keys <= r.value.Keys
    decreases |titles|
  {
    if titles == [] || titles[0].None? then Ok(c)
    else
      match AddTitle(c, titles[0].value)
      case Err(e) => Err(e)
      case Ok(c') => BuildFrom(c', titles[1..])
  }

  /** The chain `calculate_chain(titles)` returns, or the error it raises. */
  function ChainOf(titles: seq<Option<string>>): Result<Chain, BuildError>
  {
    BuildFrom(Initial(), titles)
  }

  /** `calculate_chain`: the nested loop that updates the chain in place. */
  method CalculateChain(titles: seq<Option<string>>) returns (r: Result<Chain, BuildError>)
    ensures r == ChainOf(titles)
  {
    var mark: Chain := map[];
    mark := mark[START := []];
    var i := 0;
    while i < |titles|
      invariant 0 <= i <= |titles|
      invariant START in mark
      invariant ChainOf(titles) == BuildFrom(mark, titles[i..])
    {
      if titles[i].None? {
        break;
      }
      var words := Split(titles[i].value);
      // `previous` is always the table of some key; the key stands for it.
      var previous := START;
      ghost var before := mark;
      var j := 0;
      while j < |words|
        invariant 0 <= j <= |words|
        invariant START in mark && previous in mark
        invariant AddWords(before, START, words) == AddWords(mark, previous, words[j..])
      {
        var word := words[j];
        if word == "" {
          break;
        }
        if word !in Successors(mark[previous]) {
          mark := mark[previous := Bump(mark[previous], word)];
          if word !in mark {
            mark := mark[word := []];
          }
        } else {
          mark := mark[previous := Bump(mark[previous], word)];
        }
        if word !in mark {
          return Err(KeyError(word));
        }
        previous := word;
        j := j + 1;
      }
      mark := mark[previous := Bump(mark[previous], END)];
      assert titles[i..][1..] == titles[i + 1..];
      i := i + 1;
    }
    return Ok(mark);
  }
}
