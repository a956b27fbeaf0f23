# A verified model of the movie-title Markov chain

`movies_markov.py` learns a first-order Markov chain over the words of
movie titles and generates new titles by walking it. This project models
the four pieces that carry that logic and proves what they promise:

- **`calculate_chain`** (module `Builder`): one pass over the cleaned
  titles that builds a dict from each symbol to its edge table, a dict from
  successor word to count. `'_start_'` (`START`) precedes every title and
  `'_end_'` (`END`) follows its last word. `CalculateChain` keeps the
  source's nested loops over a `map` that it updates in place. Python's
  `previous`, an alias of one inner dict, becomes the key of that dict. The
  method is proved equal to the step functions `AddWord`, `AddWords`,
  `AddTitle` and `BuildFrom`, and `BuilderProps` proves the chain's
  properties about those functions.
- **`weighted_choice`** (module `Sampler`): the running-sum scan over
  `(choice, weight)` pairs. The random value is a parameter (`randval`).
  `WeightedChoice` is the loop, proved equal to `Pick`, the first pair
  whose running sum reaches `randval`.
- **`markov_randwalk`** (module `Walker`): the walk from a seed until `END`
  is drawn. The random draws are a sequence with one entry per step. A draw
  `d` becomes `d % (total + 1)`, a value in `[0, total]` as
  `random.uniform(0, total)` gives. `RandWalk` is the loop, proved equal to
  the function `Walk`, and `WalkerProps` proves what every walk satisfies.
- **`titles`** (module `Titles`): the deduplicating generator, a class
  `TitleStream` that holds `uniq`. Each pull is a call of `Next`, which
  retries walks until one is neither the seed nor already yielded.

Edge tables are `seq<(string, nat)>` in insertion order. The order is kept
because `weighted_choice` scans `dict.items()` in that order. The chain
itself is a `map`, because only lookups are made in it.

Exceptions of the source are `Err` results:
- `calculate_chain` raises `KeyError` at `previous = mark[word]` when a
  title has the word `'_end_'` after a symbol whose table already has an
  `'_end_'` edge, and `'_end_'` has no table. The titles `["a", "a _end_"]`
  do it (`Scenarios.EndWordRaises`). `BuilderProps.ChainSucceeds` proves
  that only the word `'_end_'` can cause it.
- The walk raises `KeyError` for an unknown seed (`StartNotFound`) or an
  unknown successor (`UnknownSymbol`).
- `weighted_choice` reaches `assert False` on an empty table
  (`SamplerExhausted`). This happens when walking from `'_start_'` in the
  chain built from no titles.
- An exception that leaves `titles` finishes the generator. Every later
  pull raises `StopIteration` (`Stopped`). Running out of the supplied
  draws (`OutOfDraws`) is not an exception of the source and does not
  finish it.

Behaviours of the code worth noting:
- A `None` title stops the pass (`break`). It does not skip that title.
- The random value is drawn from the closed interval `[0, total]`.
- `uniq` starts empty, and the seed is rejected by its own comparison
  (`title == seed`).
- A title that is empty or starts with a space still counts: it adds a
  `START` to `END` edge.

## Model

| member | source | states |
|---|---|---|
| `Text.Split` | movies_markov.py:119 | `title.split(' ')` gives at least one piece and no piece contains a space |
| `Text.JoinSplit` | movies_markov.py:119 | joining the pieces of `split(' ')` with `' '` gives back the string |
| `Text.SplitJoin` | movies_markov.py:102 | splitting `' '.join(words)` gives back the words, when there is at least one word and no word contains a space |
| `Sampler.FirstReachingFrom` | movies_markov.py:69-73 | the index the scan stops at is the first pair whose running sum, own weight included, reaches `randval`; none means no running sum reaches it |
| `Sampler.WeightedChoice` | movies_markov.py:65-74 | the scan with accumulator `upto` returns exactly `Pick(choices, randval)`, and falls through (None, the `assert False`) exactly when `Pick` does |
| `Sampler.FirstReachingIsUnique` | movies_markov.py:70-72 | if pair `k` is the first whose running sum reaches `randval`, the scan returns pair `k`'s choice |
| `Sampler.PickNone` | movies_markov.py:70-74 | the scan reaches `assert False` if and only if no running sum reaches `randval` |
| `Sampler.PickNeverFails` | movies_markov.py:67-74 | for non-empty pairs and `randval <= total` the scan always returns a choice |
| `Sampler.PickSingle` | movies_markov.py:67-72 | a single pair is returned for every draw up to its weight |
| `Sampler.PickInterval` | movies_markov.py:67-73 | with non-negative weights every draw in `(sum before k, sum through k]`, an interval as wide as pair `k`'s weight, returns pair `k` |
| `Sampler.PickedInInterval` | movies_markov.py:67-73 | conversely, a positive draw that stops the scan at pair `k` lies in pair `k`'s interval |
| `Sampler.PickAtZero` | movies_markov.py:67-73 | a draw of 0 (or less) returns the first pair, outside its interval, so with integer draws the first pair has one draw more than its weight |
| `Sampler.RunningSumMonotone` | movies_markov.py:73 | with non-negative weights the accumulator `upto` never decreases |
| `Chains.Bump` | movies_markov.py:131-140 | one observation of `w` appends `w` with count 1 if new, otherwise keeps the key order; `w`'s count grows by 1 and every other count is unchanged |
| `Chains.BumpTotal` | movies_markov.py:133-140 | one observation adds exactly 1 to the table's total |
| `Chains.BumpPositive` | movies_markov.py:133-140 | a new edge starts at 1 and old counts only grow, so all counts stay at least 1 |
| `Chains.WeightAbsent` | movies_markov.py:131 | a word that is not a key of the table has count 0 |
| `Builder.AddWord` | movies_markov.py:129-142 | one word adds exactly that word to the chain's keys; the lookup `mark[word]` raises `KeyError` exactly when the edge already existed and the word has no table |
| `Builder.AddWords` | movies_markov.py:125-142 | the words of a title only add keys, and the final `previous` has a table |
| `Builder.AddTitle` | movies_markov.py:119-148 | a title only adds keys to the chain |
| `Builder.BuildFrom` | movies_markov.py:114-148 | the pass only adds keys to the chain |
| `Builder.CalculateChain` | movies_markov.py:104-149 | the nested loops return exactly `ChainOf(titles)`, including the `KeyError` |
| `BuilderProps.Leading` | movies_markov.py:125-127 | the words consumed are the pieces before the first empty one, and none of them is empty |
| `BuilderProps.Processed` | movies_markov.py:114-116 | the titles processed are those before the first `None`, and all of them are present |
| `BuilderProps.ChainHasStart` | movies_markov.py:111-112 | the chain always has the key `'_start_'`, and for no titles it is `{'_start_': {}}` |
| `BuilderProps.BuildStopsAtNone` | movies_markov.py:114-116 | from any chain, the pass over titles with a `None` at `k` equals the pass over the first `k` titles |
| `BuilderProps.ChainStopsAtNone` | movies_markov.py:114-116 | titles after the first `None` contribute nothing (`break`, not skip) |
| `BuilderProps.AddWordsStopsAtEmpty` | movies_markov.py:125-127 | an empty piece ends the words of a title: later pieces contribute nothing |
| `BuilderProps.BumpKeepsClosed` | movies_markov.py:131-142 | counting an edge to a word that has a table, or to `END`, keeps every successor with a table |
| `BuilderProps.AddWordKeepsSound` | movies_markov.py:129-142 | one word keeps the chain closed, positive and duplicate-free |
| `BuilderProps.AddTitleKeepsSound` | movies_markov.py:119-148 | one title, with its `'_end_'` edge, keeps the chain closed, positive and duplicate-free |
| `BuilderProps.ChainIsSound` | movies_markov.py:104-149 | the built chain has `'_start_'`, every successor other than `'_end_'` is a key (so `mark[newword]` cannot fail), every count is at least 1, and no table repeats a key |
| `BuilderProps.ChainSucceeds` | movies_markov.py:138-142 | when no title has the word `'_end_'`, `calculate_chain` never raises `KeyError` |
| `BuilderProps.ChainTablesFilled` | movies_markov.py:137-148 | after at least one title every table, `'_start_'`'s included, has an edge |
| `BuilderProps.ChainKeys` | movies_markov.py:111-137 | the keys of the chain are `'_start_'` and exactly the words of the processed titles |
| `BuilderProps.AdjSnoc` | movies_markov.py:145-148 | closing a title with `'_end_'` adds the pair of its last symbol and `'_end_'` |
| `BuilderProps.AddTitleCount` | movies_markov.py:119-148 | one title adds to each count the number of times the pair occurs in `START`, words, `END` |
| `BuilderProps.ChainCountsPairs` | movies_markov.py:123-148 | the count of `s -> t` is the number of times `t` directly follows `s` in the processed titles, padded with `START` and `END`; a symbol with no table was never followed |
| `BuilderProps.AddTitleStartTotal` | movies_markov.py:123-148 | a title without the word `'_start_'` adds exactly one to `'_start_'`'s total: its first word, or `'_end_'` if it has none |
| `BuilderProps.AddTitleEndTotal` | movies_markov.py:145-148 | a title without the word `'_end_'` adds exactly one `'_end_'` count over all tables |
| `BuilderProps.EndsInSplit` | movies_markov.py:145-148 | the sum of `'_end_'` counts can be taken starting from any table |
| `BuilderProps.ChainTotals` | movies_markov.py:114-148 | without sentinel words the pass succeeds; the counts leaving `'_start_'` sum to the number of processed titles, and so do the `'_end_'` counts over all tables |
| `Walker.Uniform` | movies_markov.py:68 | the draw used for a table lies in `[0, total]` |
| `Walker.RandWalk` | movies_markov.py:78-102 | the loop returns exactly the joined words of `Walk(mark, start, draws)` or its error |
| `WalkerProps.StepIsSuccessor` | movies_markov.py:92 | a drawn word is a key of the scanned table |
| `WalkerProps.StepNeverFails` | movies_markov.py:67-74 | a table with an edge always yields a word, so `assert False` is unreachable |
| `WalkerProps.WalkFromPath` | movies_markov.py:89-99 | the walk extends its title, and each symbol it passes is followed in the chain by the next, ending with `END` |
| `WalkerProps.WalkFollowsChain` | movies_markov.py:81-99 | a walk from a seed word begins with that word, and every consecutive pair (`START` or the seed first, `END` last) is an edge of the chain |
| `WalkerProps.WalkAvoidsEnd` | movies_markov.py:94-98 | the title never contains `'_end_'` unless `'_end_'` is the seed |
| `WalkerProps.WalkFromTotal` | movies_markov.py:89-99 | on a closed chain without empty tables a walk ends with a title or runs out of draws |
| `WalkerProps.WalkOnBuiltChain` | movies_markov.py:78-99 | on a chain built from at least one title a walk from any key never fails; from no titles, a walk from `'_start_'` reaches `assert False` |
| `Scenarios.AddFreshWord` | movies_markov.py:131-137 | a word new to the chain gets an edge of count 1 and an empty table |
| `Scenarios.GodfatherBuilt` | movies_markov.py:104-149 | the chain of the single title "the godfather" is `START -> the -> godfather -> END`, each count 1 |
| `Scenarios.GodfatherWalk` | movies_markov.py:78-102 | walking that chain from `'_start_'` gives "the godfather" for any three draws |
| `Scenarios.EndWordRaises` | movies_markov.py:138-142 | the titles `["a", "a _end_"]` make `calculate_chain` raise `KeyError` |
| `Titles.FirstNovel` | movies_markov.py:156-161 | a yielded title is neither the seed nor in `uniq` |
| `Titles.FirstNovelIsWalk` | movies_markov.py:156-161 | a yielded title is the title of one of the walks, and every earlier walk gave the seed or a title already in `uniq` |
| `Titles.TitleStream.constructor` | movies_markov.py:153-155 | a new generator starts unfinished, with an empty `uniq` and the seed `'_start_'` by default |
| `Titles.TitleStream.Next` | movies_markov.py:156-161 | a pull yields `FirstNovel`; `uniq` grows by exactly that title, or stays unchanged on failure; across pulls no title is yielded twice and the seed never is; once a walk has raised, the generator is finished and every later pull fails with `Stopped` (`StopIteration`) |

## Left out

- `read_movies_zip`, the zip archive and its decoding: file I/O. The model takes the titles as a sequence.
- `cleanline` and `clean_input`: they rely on regular expressions, and `clean_input` returns an unordered `set`. The model takes the already-cleaned titles as a `seq<Option<string>>` in some order, with `None` for an unparsed line.
- `pyprind.prog_bar`: a progress bar. The model iterates over the titles directly.
- `pickle.dump` and `pickle.load`, `sys.argv`, printing and the `__main__` block. The chain is a value, so saving and loading it has nothing left to model.
- `random.uniform`: floating-point draws become integer draws reduced into `[0, total]`, and weights are exact integers. The model states which value of the draw selects each pair: the pair's interval for positive draws (`Sampler.PickInterval`, `Sampler.PickedInInterval`), and the first pair for the draw 0 (`Sampler.PickAtZero`), which for real-valued draws has probability 0 but is one extra integer draw here. It does not state probabilities.
- Probabilistic termination: the walk and the retry loop of `titles` end with probability 1 but without a bound. The model bounds them by the draws supplied. `OutOfDraws` marks a walk or a pull cut short by that bound.
- The generator's laziness: each pull is an explicit `Next` call.
- BuilderProps.ChainTotals: requires that no title has the word `'_start_'` or `'_end_'`. For such titles the source itself counts the extra edges, so the two sums then differ from the number of titles (`BuilderProps.ChainCountsPairs` still holds).
