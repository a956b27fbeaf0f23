/**
 * What `calculate_chain` promises about the chain it returns, proved about
 * the step functions of `Builder` (and so, through
 * `CalculateChain`'s postcondition, about the method).
 */
module BuilderProps {
  import opened Wrappers
  import opened Text
  import opened Sampler
  import opened Chains
  import opened Builder

  // ----- The words of a title and the titles of a pass -----

  /** The pieces before the first empty one: the words the inner loop consumes. */
  function Leading(pieces: seq<string>): (ws: seq<string>)
    ensures |ws| <= |pieces| && ws == pieces[..|ws|]
    ensures forall i :: 0 <= i < |ws| ==> ws[i] != ""
    ensures |ws| < |pieces| ==> pieces[|ws|] == ""
  {
    if pieces == [] || pieces[0] == "" then []
    else [pieces[0]] + Leading(pieces[1..])
  }

  /** The words of a title that the pass counts. */
  function Words(title: string): seq<string>
  {
    Leading(Split(title))
  }

  /** How many titles the pass processes: those before the first `None`. */
  function Processed(titles: seq<Option<string>>): (n: nat)
    ensures n <= |titles|
    ensures forall i :: 0 <= i < n ==> titles[i].Some?
    ensures n < |titles| ==> titles[n].None?
  {
    if titles == [] || titles[0].None? then 0
    else 1 + Processed(titles[1..])
  }

  /** No processed title has `END` among its words. */
  ghost predicate AvoidsEnd(titles: seq<Option<string>>)
  {
    titles == [] || titles[0].None? ||
    (END !in Words(titles[0].value) && AvoidsEnd(titles[1..]))
  }

  /** No processed title has a sentinel among its words. */
  ghost predicate AvoidsSentinels(titles: seq<Option<string>>)
  {
    titles == [] || titles[0].None? ||
    (START !in Words(titles[0].value) && END !in Words(titles[0].value) && AvoidsSentinels(titles[1..]))
  }

  // ----- The chain always has START; the pass stops at None and at an empty word -----

  /** `calculate_chain` keeps the key `START`, and for no titles returns just `{'_start_': {}}`. */
  lemma ChainHasStart(titles: seq<Option<string>>)
    ensures ChainOf(titles).Ok? ==> START in ChainOf(titles).value
    ensures Processed(titles) == 0 ==> ChainOf(titles) == Ok(map[START := []])
  {
  }

  /** The first `None` ends the pass: nothing after it is looked at. */
  lemma {:induction false} BuildStopsAtNone(c: Chain, titles: seq<Option<string>>, k: nat)
    requires START in c
    requires k < |titles| && titles[k].None?
    ensures BuildFrom(c, titles) == BuildFrom(c, titles[..k])
    decreases k
  {
    if k > 0 && titles[0].Some? {
      assert titles[..k][0] == titles[0];
      assert titles[..k][1..] == titles[1..][..k - 1];
      match AddTitle(c, titles[0].value)
      case Err(_) =>
      case Ok(c') => BuildStopsAtNone(c', titles[1..], k - 1);
    }
  }

  /** `calculate_chain` of the titles equals that of the titles before any `None`. */
  lemma ChainStopsAtNone(titles: seq<Option<string>>, k: nat)
    requires k < |titles| && titles[k].None?
    ensures ChainOf(titles) == ChainOf(titles[..k])
  {
    BuildStopsAtNone(Initial(), titles, k);
  }

  /** An empty piece (two spaces in a row) ends the words of a title. */
  lemma {:induction false} AddWordsStopsAtEmpty(c: Chain, prev: string, pieces: seq<string>, j: nat)
    requires prev in c
    requires j < |pieces| && pieces[j] == ""
    ensures AddWords(c, prev, pieces) == AddWords(c, prev, pieces[..j])
    decreases j
  {
    if j > 0 && pieces[0] != "" {
      assert pieces[..j][0] == pieces[0];
      assert pieces[..j][1..] == pieces[1..][..j - 1];
      match AddWord(c, prev, pieces[0])
      case Err(_) =>
      case Ok(c') => AddWordsStopsAtEmpty(c', pieces[0], pieces[1..], j - 1);
    }
  }

  // ----- Invariants of the chain: closed under successors, positive counts, dict keys -----

  /** The three invariants every chain the pass produces satisfies. */
  ghost predicate Sound(c: Chain)
  {
    START in c && Closed(c) && Positive(c) && DistinctTables(c)
  }

  /** Counting one observation in the table of `p` keeps every successor with a table, given that `w` has one. */
  lemma BumpKeepsClosed(c: Chain, p: string, w: string)
    requires Closed(c) && p in c
    requires w in c || w == END
    ensures Closed(c[p := Bump(c[p], w)])
  {
    var c' := c[p := Bump(c[p], w)];
    forall k, x | k in c' && x in Successors(c'[k]) && x != END ensures x in c' {
      if k == p {
        assert x in Successors(c[p]) || x == w;
      }
    }
  }

  /** Counting one observation in the table of `p` keeps the invariants, given that its successor has a table. */
  lemma BumpKeepsSound(c: Chain, p: string, w: string)
    requires Sound(c) && p in c
    requires w in c || w == END
    ensures Sound(c[p := Bump(c[p], w)])
  {
    var c' := c[p := Bump(c[p], w)];
    BumpKeepsClosed(c, p, w);
    BumpPositive(c[p], w);
    assert Positive(c') by {
      forall k, i | k in c' && 0 <= i < |c'[k]| ensures c'[k][i].1 >= 1 {
        if k != p {
          assert c'[k] == c[k];
        }
      }
    }
    BumpDistinct(c[p], w);
    assert DistinctTables(c') by {
      forall k | k in c' ensures Distinct(Successors(c'[k])) {
        if k != p {
          assert c'[k] == c[k];
        }
      }
    }
  }

  /** One observed word keeps the invariants. */
  lemma AddWordKeepsSound(c: Chain, prev: string, w: string)
    requires Sound(c) && prev in c
    ensures AddWord(c, prev, w).Ok? ==> Sound(AddWord(c, prev, w).value)
  {
    if AddWord(c, prev, w).Ok? {
      var c1 := c[prev := Bump(c[prev], w)];
      if w in c {
        BumpKeepsSound(c, prev, w);
      } else if w in Successors(c[prev]) {
        // the lookup of `w` fails: AddWord is an error here
      } else {
        var c0 := c[w := []];
        assert Sound(c0) by {
          assert DistinctTables(c0) by {
            assert Successors([]) == [];
          }
        }
        BumpKeepsSound(c0, prev, w);
        assert c0[prev := Bump(c0[prev], w)] == c1[w := []];
      }
    }
  }

  /** The words of a title keep the invariants. */
  lemma {:induction false} AddWordsKeepsSound(c: Chain, prev: string, pieces: seq<string>)
    requires Sound(c) && prev in c
    ensures AddWords(c, prev, pieces).Ok? ==> Sound(AddWords(c, prev, pieces).value.0)
    decreases |pieces|
  {
    if pieces != [] && pieces[0] != "" {
      AddWordKeepsSound(c, prev, pieces[0]);
      match AddWord(c, prev, pieces[0])
      case Err(_) =>
      case Ok(c') => AddWordsKeepsSound(c', pieces[0], pieces[1..]);
    }
  }

  /** A whole title keeps the invariants. */
  lemma AddTitleKeepsSound(c: Chain, title: string)
    requires Sound(c)
    ensures AddTitle(c, title).Ok? ==> Sound(AddTitle(c, title).value)
  {
    AddWordsKeepsSound(c, START, Split(title));
    match AddWords(c, START, Split(title))
    case Err(_) =>
    case Ok((c', last)) => BumpKeepsSound(c', last, END);
  }

  /** The pass keeps the invariants. */
  lemma {:induction false} BuildFromKeepsSound(c: Chain, titles: seq<Option<string>>)
    requires Sound(c)
    ensures BuildFrom(c, titles).Ok? ==> Sound(BuildFrom(c, titles).value)
    decreases |titles|
  {
    if titles != [] && titles[0].Some? {
      AddTitleKeepsSound(c, titles[0].value);
      match AddTitle(c, titles[0].value)
      case Err(_) =>
      case Ok(c') => BuildFromKeepsSound(c', titles[1..]);
    }
  }

  /**
   * Every chain `calculate_chain` returns has `START`, has a table for every
   * successor other than `END` (so `mark[newword]` never fails on it), has
   * every count at least 1 and has distinct keys in every table.
   */
  lemma ChainIsSound(titles: seq<Option<string>>)
    ensures ChainOf(titles).Ok? ==> Sound(ChainOf(titles).value)
  {
    assert Successors([]) == [];
    BuildFromKeepsSound(Initial(), titles);
  }

  /** Titles without the word `END` never make the pass raise `KeyError`. */
  lemma {:induction false} BuildFromSucceeds(c: Chain, titles: seq<Option<string>>)
    requires Sound(c) && AvoidsEnd(titles)
    ensures BuildFrom(c, titles).Ok?
    decreases |titles|
  {
    if titles != [] && titles[0].Some? {
      AddWordsSucceed(c, START, Split(titles[0].value));
      AddTitleKeepsSound(c, titles[0].value);
      BuildFromSucceeds(AddTitle(c, titles[0].value).value, titles[1..]);
    }
  }

  /** Words other than `END` never make the inner loop raise `KeyError`. */
  lemma {:induction false} AddWordsSucceed(c: Chain, prev: string, pieces: seq<string>)
    requires Sound(c) && prev in c
    requires END !in Leading(pieces)
    ensures AddWords(c, prev, pieces).Ok?
    decreases |pieces|
  {
    if pieces != [] && pieces[0] != "" {
      var w := pieces[0];
      assert w in Leading(pieces);
      AddWordKeepsSound(c, prev, w);
      assert AddWord(c, prev, w).Ok?;
      AddWordsSucceed(AddWord(c, prev, w).value, w, pieces[1..]);
    }
  }

  /** `calculate_chain` returns a chain whenever no title has the word `END`. */
  lemma ChainSucceeds(titles: seq<Option<string>>)
    requires AvoidsEnd(titles)
    ensures ChainOf(titles).Ok?
  {
    assert Successors([]) == [];
    BuildFromSucceeds(Initial(), titles);
  }

  // ----- Every table the walk can reach is non-empty -----

  /** Every table other than that of `p` has at least one edge. */
  ghost predicate FilledExcept(c: Chain, p: string)
  {
    forall k :: k in c && k != p ==> c[k] != []
  }

  /** One observed word fills the table of `prev`; only the table of the word itself may be empty. */
  lemma AddWordFills(c: Chain, prev: string, w: string)
    requires prev in c && FilledExcept(c, prev)
    ensures AddWord(c, prev, w).Ok? ==> FilledExcept(AddWord(c, prev, w).value, w)
  {
    assert |Successors(Bump(c[prev], w))| >= 1;
  }

  /** After the words of a title, only the table of the last word may be empty. */
  lemma {:induction false} AddWordsFill(c: Chain, prev: string, pieces: seq<string>)
    requires prev in c && FilledExcept(c, prev)
    ensures AddWords(c, prev, pieces).Ok? ==>
      FilledExcept(AddWords(c, prev, pieces).value.0, AddWords(c, prev, pieces).value.1)
    decreases |pieces|
  {
    if pieces != [] && pieces[0] != "" {
      AddWordFills(c, prev, pieces[0]);
      match AddWord(c, prev, pieces[0])
      case Err(_) =>
      case Ok(c') => AddWordsFill(c', pieces[0], pieces[1..]);
    }
  }

  /** After a title, closed by `END`, every table has an edge. */
  lemma AddTitleFills(c: Chain, title: string)
    requires START in c && FilledExcept(c, START)
    ensures AddTitle(c, title).Ok? ==> forall k :: k in AddTitle(c, title).value ==> AddTitle(c, title).value[k] != []
  {
    AddWordsFill(c, START, Split(title));
    match AddWords(c, START, Split(title))
    case Err(_) =>
    case Ok((c', last)) =>
      assert |Successors(Bump(c'[last], END))| >= 1;
  }

  /** The pass leaves only `START`'s table possibly empty, and none once a title was processed. */
  lemma {:induction false} BuildFromFills(c: Chain, titles: seq<Option<string>>)
    requires START in c && FilledExcept(c, START)
    ensures BuildFrom(c, titles).Ok? ==> FilledExcept(BuildFrom(c, titles).value, START)
    ensures BuildFrom(c, titles).Ok? && Processed(titles) > 0 ==>
      forall k :: k in BuildFrom(c, titles).value ==> BuildFrom(c, titles).value[k] != []
    decreases |titles|
  {
    if titles != [] && titles[0].Some? {
      AddTitleFills(c, titles[0].value);
      match AddTitle(c, titles[0].value)
      case Err(_) =>
      case Ok(c') =>
        BuildFromFills(c', titles[1..]);
        if Processed(titles[1..]) == 0 {
          assert BuildFrom(c', titles[1..]) == Ok(c');
        }
    }
  }

  /**
   * In a chain built from at least one title every table, `START`'s
   * included, has an edge, so `weighted_choice` never scans an empty table.
   * With no titles only `START`'s table exists, and it is empty.
   */
  lemma ChainTablesFilled(titles: seq<Option<string>>)
    ensures ChainOf(titles).Ok? && Processed(titles) > 0 ==>
      forall k :: k in ChainOf(titles).value ==> ChainOf(titles).value[k] != []
  {
    BuildFromFills(Initial(), titles);
  }

  // ----- The keys of the chain -----

  /** Every word of the processed titles. */
  function AllWords(titles: seq<Option<string>>): set<string>
  {
    if titles == [] || titles[0].None? then {}
    else (set w | w in Words(titles[0].value)) + AllWords(titles[1..])
  }

  /** The words of a title become keys of the chain, and the last one is `previous` at the end. */
  lemma {:induction false} AddWordsKeys(c: Chain, prev: string, pieces: seq<string>)
    requires prev in c
    ensures AddWords(c, prev, pieces).Ok? ==>
      && AddWords(c, prev, pieces).value.0.Keys == c.Keys + (set w | w in Leading(pieces))
      && AddWords(c, prev, pieces).value.1 == ([prev] + Leading(pieces))[|Leading(pieces)|]
    decreases |pieces|
  {
    if pieces != [] && pieces[0] != "" {
      match AddWord(c, prev, pieces[0])
      case Err(_) =>
      case Ok(c') =>
        AddWordsKeys(c', pieces[0], pieces[1..]);
        assert Leading(pieces) == [pieces[0]] + Leading(pieces[1..]);
    }
  }

  /** The keys of the pass's chain are `START` and the words of the processed titles. */
  lemma {:induction false} BuildFromKeys(c: Chain, titles: seq<Option<string>>)
    requires START in c
    ensures BuildFrom(c, titles).Ok? ==> BuildFrom(c, titles).value.Keys == c.Keys + AllWords(titles)
    decreases |titles|
  {
    if titles != [] && titles[0].Some? {
      AddWordsKeys(c, START, Split(titles[0].value));
      match AddTitle(c, titles[0].value)
      case Err(_) =>
      case Ok(c') => BuildFromKeys(c', titles[1..]);
    }
  }

  /** A symbol has a table exactly when it is `START` or a word of some processed title. */
  lemma ChainKeys(titles: seq<Option<string>>)
    ensures ChainOf(titles).Ok? ==> ChainOf(titles).value.Keys == {START} + AllWords(titles)
  {
    BuildFromKeys(Initial(), titles);
  }

  // ----- Each count is the number of times one symbol followed another -----

  /** How often `s` is immediately followed by `t` in `q`. */
  function Adj(q: seq<string>, s: string, t: string): nat
  {
    if |q| < 2 then 0
    else (if q[0] == s && q[1] == t then 1 else 0) + Adj(q[1..], s, t)
  }

  /** A symbol that never occurs starts no pair. */
  lemma {:induction false} AdjAbsent(q: seq<string>, s: string, t: string)
    requires forall i :: 0 <= i < |q| ==> q[i] != s
    ensures Adj(q, s, t) == 0
    decreases |q|
  {
    if |q| >= 2 {
      AdjAbsent(q[1..], s, t);
    }
  }

  /** Appending one symbol adds the pair it forms with the last one. */
  lemma {:induction false} AdjSnoc(q: seq<string>, x: string, s: string, t: string)
    requires |q| >= 1
    ensures Adj(q + [x], s, t) == Adj(q, s, t) + (if q[|q| - 1] == s && x == t then 1 else 0)
  {
    if |q| >= 2 {
      assert (q + [x])[1..] == q[1..] + [x];
      AdjSnoc(q[1..], x, s, t);
    } else {
      assert (q + [x])[1..] == [x];
    }
  }

  /** A title between the sentinels: `START`, its words, `END`. */
  function Padded(title: string): seq<string>
  {
    [START] + Words(title) + [END]
  }

  /** How often `t` followed `s` over the processed titles, sentinels included. */
  function Count(titles: seq<Option<string>>, s: string, t: string): nat
  {
    if titles == [] || titles[0].None? then 0
    else Adj(Padded(titles[0].value), s, t) + Count(titles[1..], s, t)
  }

  /** One observed word adds one to the count of its edge and to no other. */
  lemma AddWordCount(c: Chain, prev: string, w: string, s: string, t: string)
    requires prev in c
    ensures AddWord(c, prev, w).Ok? ==>
      WeightIn(AddWord(c, prev, w).value, s, t) == WeightIn(c, s, t) + (if s == prev && t == w then 1 else 0)
  {
    if AddWord(c, prev, w).Ok? && s != prev && s !in c && s == w {
      assert AddWord(c, prev, w).value[s] == [];
    }
  }

  /** The words of a title add the pairs of `prev` followed by those words. */
  lemma {:induction false} AddWordsCount(c: Chain, prev: string, pieces: seq<string>, s: string, t: string)
    requires prev in c
    ensures AddWords(c, prev, pieces).Ok? ==>
      WeightIn(AddWords(c, prev, pieces).value.0, s, t) == WeightIn(c, s, t) + Adj([prev] + Leading(pieces), s, t)
    decreases |pieces|
  {
    if pieces != [] && pieces[0] != "" {
      AddWordCount(c, prev, pieces[0], s, t);
      match AddWord(c, prev, pieces[0])
      case Err(_) =>
      case Ok(c') =>
        AddWordsCount(c', pieces[0], pieces[1..], s, t);
        var q := [prev] + Leading(pieces);
        assert q[1..] == [pieces[0]] + Leading(pieces[1..]);
    }
  }

  /** A title adds the pairs of its padded form. */
  lemma AddTitleCount(c: Chain, title: string, s: string, t: string)
    requires START in c
    ensures AddTitle(c, title).Ok? ==>
      WeightIn(AddTitle(c, title).value, s, t) == WeightIn(c, s, t) + Adj(Padded(title), s, t)
  {
    var pieces := Split(title);
    AddWordsCount(c, START, pieces, s, t);
    AddWordsKeys(c, START, pieces);
    match AddWords(c, START, pieces)
    case Err(_) =>
    case Ok((c', last)) =>
      var q := [START] + Words(title);
      AdjSnoc(q, END, s, t);
      assert q[|q| - 1] == last;
  }

  /** The pass adds the pairs of every processed title. */
  lemma {:induction false} BuildFromCount(c: Chain, titles: seq<Option<string>>, s: string, t: string)
    requires START in c
    ensures BuildFrom(c, titles).Ok? ==>
      WeightIn(BuildFrom(c, titles).value, s, t) == WeightIn(c, s, t) + Count(titles, s, t)
    decreases |titles|
  {
    if titles != [] && titles[0].Some? {
      AddTitleCount(c, titles[0].value, s, t);
      match AddTitle(c, titles[0].value)
      case Err(_) =>
      case Ok(c') => BuildFromCount(c', titles[1..], s, t);
    }
  }

  /**
   * Every count in the chain is the number of times `t` immediately followed
   * `s` in the processed titles, with `START` before each title and `END`
   * after its last word; a symbol without a table was never followed.
   */
  lemma ChainCountsPairs(titles: seq<Option<string>>, s: string, t: string)
    ensures ChainOf(titles).Ok? ==> WeightIn(ChainOf(titles).value, s, t) == Count(titles, s, t)
  {
    BuildFromCount(Initial(), titles, s, t);
  }

  // ----- START's counts and END's counts both add up to the number of titles -----

  /** One observed word other than `START` adds one to `START`'s total when it follows `START`. */
  lemma AddWordStartTotal(c: Chain, prev: string, w: string)
    requires prev in c && START in c && w != START
    ensures AddWord(c, prev, w).Ok? ==>
      Total(AddWord(c, prev, w).value[START]) == Total(c[START]) + (if prev == START then 1 else 0)
  {
    BumpTotal(c[prev], w);
  }

  /** The words of a title add one to `START`'s total when they follow `START` and there is a word. */
  lemma {:induction false} AddWordsStartTotal(c: Chain, prev: string, pieces: seq<string>)
    requires prev in c && START in c
    requires START !in Leading(pieces)
    ensures AddWords(c, prev, pieces).Ok? ==>
      && Total(AddWords(c, prev, pieces).value.0[START])
         == Total(c[START]) + (if prev == START && Leading(pieces) != [] then 1 else 0)
      && (AddWords(c, prev, pieces).value.1 == START <==> prev == START && Leading(pieces) == [])
    decreases |pieces|
  {
    if pieces != [] && pieces[0] != "" {
      assert pieces[0] in Leading(pieces);
      assert Leading(pieces) == [pieces[0]] + Leading(pieces[1..]);
      AddWordStartTotal(c, prev, pieces[0]);
      match AddWord(c, prev, pieces[0])
      case Err(_) =>
      case Ok(c') => AddWordsStartTotal(c', pieces[0], pieces[1..]);
    }
  }

  /** A title without the word `START` adds exactly one to `START`'s total. */
  lemma AddTitleStartTotal(c: Chain, title: string)
    requires START in c && START !in Words(title)
    ensures AddTitle(c, title).Ok? ==> Total(AddTitle(c, title).value[START]) == Total(c[START]) + 1
    ensures AddTitle(c, title).Ok? ==>
      Weight(AddTitle(c, title).value[START], (Words(title) + [END])[0]) == Weight(c[START], (Words(title) + [END])[0]) + 1
  {
    var rest := Words(title) + [END];
    AddTitleCount(c, title, START, rest[0]);
    AddWordsKeys(c, START, Split(title));
    assert Padded(title) == [START] + rest;
    AdjAbsent(rest, START, rest[0]);
    AddWordsStartTotal(c, START, Split(title));
    match AddWords(c, START, Split(title))
    case Err(_) =>
    case Ok((c', last)) => BumpTotal(c'[last], END);
  }

  /** The pass adds one to `START`'s total per processed title. */
  lemma {:induction false} BuildFromStartTotal(c: Chain, titles: seq<Option<string>>)
    requires START in c && AvoidsSentinels(titles)
    ensures BuildFrom(c, titles).Ok? ==> Total(BuildFrom(c, titles).value[START]) == Total(c[START]) + Processed(titles)
    decreases |titles|
  {
    if titles != [] && titles[0].Some? {
      AddTitleStartTotal(c, titles[0].value);
      match AddTitle(c, titles[0].value)
      case Err(_) =>
      case Ok(c') => BuildFromStartTotal(c', titles[1..]);
    }
  }

  /** The `END` counts of the tables of the keys `ks`, summed. */
  ghost function EndsIn(c: Chain, ks: set<string>): nat
    requires ks <= c.Keys
    decreases ks
  {
    if ks == {} then 0
    else
      var k :| k in ks;
      Weight(c[k], END) + EndsIn(c, ks - {k})
  }

  /** The `END` counts of all tables, summed: how many titles were closed. */
  ghost function EndTotal(c: Chain): nat
  {
    EndsIn(c, c.Keys)
  }

  /** The sum can be taken with any key first. */
  lemma {:induction false} EndsInSplit(c: Chain, ks: set<string>, x: string)
    requires ks <= c.Keys && x in ks
    ensures EndsIn(c, ks) == Weight(c[x], END) + EndsIn(c, ks - {x})
    decreases ks
  {
    var k :| k in ks && EndsIn(c, ks) == Weight(c[k], END) + EndsIn(c, ks - {k});
    if k != x {
      EndsInSplit(c, ks - {k}, x);
      EndsInSplit(c, ks - {x}, k);
      assert ks - {k} - {x} == ks - {x} - {k};
    }
  }

  /** Two chains whose tables agree on their `END` counts over `ks` have the same sum there. */
  lemma {:induction false} EndsInAgree(c: Chain, d: Chain, ks: set<string>)
    requires ks <= c.Keys && ks <= d.Keys
    requires forall k :: k in ks ==> Weight(c[k], END) == Weight(d[k], END)
    ensures EndsIn(c, ks) == EndsIn(d, ks)
    decreases ks
  {
    if ks != {} {
      var k :| k in ks;
      EndsInSplit(c, ks, k);
      EndsInSplit(d, ks, k);
      EndsInAgree(c, d, ks - {k});
    }
  }

  /** Replacing one table changes the sum by the change in that table's `END` count. */
  lemma EndTotalUpdate(c: Chain, p: string, t: Table)
    requires p in c
    ensures EndTotal(c[p := t]) + Weight(c[p], END) == EndTotal(c) + Weight(t, END)
  {
    var c' := c[p := t];
    assert c'.Keys == c.Keys;
    EndsInSplit(c, c.Keys, p);
    EndsInSplit(c', c.Keys, p);
    EndsInAgree(c, c', c.Keys - {p});
  }

  /** A new empty table leaves the sum unchanged. */
  lemma EndTotalAddEmpty(c: Chain, w: string)
    requires w !in c
    ensures EndTotal(c[w := []]) == EndTotal(c)
  {
    var c' := c[w := []];
    EndsInSplit(c', c'.Keys, w);
    assert c'.Keys - {w} == c.Keys;
    EndsInAgree(c, c', c.Keys);
  }

  /** An observed word other than `END` leaves the sum of `END` counts unchanged. */
  lemma AddWordEndTotal(c: Chain, prev: string, w: string)
    requires prev in c && w != END
    ensures AddWord(c, prev, w).Ok? ==> EndTotal(AddWord(c, prev, w).value) == EndTotal(c)
  {
    var c1 := c[prev := Bump(c[prev], w)];
    EndTotalUpdate(c, prev, Bump(c[prev], w));
    if w !in c1 {
      EndTotalAddEmpty(c1, w);
    }
  }

  /** Words other than `END` leave the sum of `END` counts unchanged. */
  lemma {:induction false} AddWordsEndTotal(c: Chain, prev: string, pieces: seq<string>)
    requires prev in c && END !in Leading(pieces)
    ensures AddWords(c, prev, pieces).Ok? ==> EndTotal(AddWords(c, prev, pieces).value.0) == EndTotal(c)
    decreases |pieces|
  {
    if pieces != [] && pieces[0] != "" {
      assert pieces[0] in Leading(pieces);
      assert Leading(pieces) == [pieces[0]] + Leading(pieces[1..]);
      AddWordEndTotal(c, prev, pieces[0]);
      match AddWord(c, prev, pieces[0])
      case Err(_) =>
      case Ok(c') => AddWordsEndTotal(c', pieces[0], pieces[1..]);
    }
  }

  /** A title without the word `END` adds exactly one `END` count. */
  lemma AddTitleEndTotal(c: Chain, title: string)
    requires START in c && END !in Words(title)
    ensures AddTitle(c, title).Ok? ==> EndTotal(AddTitle(c, title).value) == EndTotal(c) + 1
  {
    AddWordsEndTotal(c, START, Split(title));
    match AddWords(c, START, Split(title))
    case Err(_) =>
    case Ok((c', last)) => EndTotalUpdate(c', last, Bump(c'[last], END));
  }

  /** The pass adds one `END` count per processed title. */
  lemma {:induction false} BuildFromEndTotal(c: Chain, titles: seq<Option<string>>)
    requires START in c && AvoidsSentinels(titles)
    ensures BuildFrom(c, titles).Ok? ==> EndTotal(BuildFrom(c, titles).value) == EndTotal(c) + Processed(titles)
    decreases |titles|
  {
    if titles != [] && titles[0].Some? {
      AddTitleEndTotal(c, titles[0].value);
      match AddTitle(c, titles[0].value)
      case Err(_) =>
      case Ok(c') => BuildFromEndTotal(c', titles[1..]);
    }
  }

  /**
   * For titles that do not use the sentinels as words, the pass succeeds,
   * the counts leaving `START` add up to the number of processed titles, and
   * so do the `END` counts over all tables.
   */
  lemma ChainTotals(titles: seq<Option<string>>)
    requires AvoidsSentinels(titles)
    ensures ChainOf(titles).Ok?
    ensures Total(ChainOf(titles).value[START]) == Processed(titles)
    ensures EndTotal(ChainOf(titles).value) == Processed(titles)
  {
    AvoidsSentinelsAvoidsEnd(titles);
    ChainSucceeds(titles);
    BuildFromStartTotal(Initial(), titles);
    BuildFromEndTotal(Initial(), titles);
    assert Total(Initial()[START]) == 0;
    assert EndTotal(Initial()) == 0 by {
      EndsInSplit(Initial(), {START}, START);
    }
  }

  /** Titles without sentinel words are in particular titles without `END`. */
  lemma {:induction false} AvoidsSentinelsAvoidsEnd(titles: seq<Option<string>>)
    requires AvoidsSentinels(titles)
    ensures AvoidsEnd(titles)
    decreases |titles|
  {
    if titles != [] && titles[0].Some? {
      AvoidsSentinelsAvoidsEnd(titles[1..]);
    }
  }
}
