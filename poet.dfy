/**
 * The graph-based poetry generator. A corpus of words gives a word affinity
 * graph: the words, lower-cased, are its vertices and the weight of w1 -> w2
 * is the number of times w1 is immediately followed by w2. A poem is made
 * from an input by inserting, between each pair of adjacent input words, a
 * bridge word b for which w1 -> b -> w2 is a two-edge path of greatest total
 * weight, when there is one.
 */
module Poet {
  import Graphs
  import opened Text
  import EdgesGraph

  datatype Option<T> = None | Some(value: T)

  // ---------------------------------------------------------------------
  // The affinity graph of a corpus
  // ---------------------------------------------------------------------

  /** The word at position i and the word after it. */
  function PairAt(ws: seq<string>, i: int): (string, string)
    requires 0 <= i < |ws| - 1
  {
    (ws[i], ws[i + 1])
  }

  /** The positions i at which a is immediately followed by b. */
  ghost function Adjacencies(ws: seq<string>, a: string, b: string): set<int>
  {
    set i | 0 <= i < |ws| - 1 && PairAt(ws, i) == (a, b)
  }

  /** How many times a is immediately followed by b. */
  ghost function Count(ws: seq<string>, a: string, b: string): nat
  {
    |Adjacencies(ws, a, b)|
  }

  /** The ordered pairs of adjacent words. */
  ghost function AdjacentPairs(ws: seq<string>): set<(string, string)>
  {
    set i | 0 <= i < |ws| - 1 :: PairAt(ws, i)
  }

  /** The affinity graph of a sequence of (lower-cased) words, as the class
      documentation defines it. */
  ghost function Affinity(ws: seq<string>): Graphs.Graph<string>
  {
    Graphs.Graph(set w | w in ws, map p | p in AdjacentPairs(ws) :: Count(ws, p.0, p.1))
  }

  /** The weight of a -> b in the affinity graph is the number of adjacent
      occurrences of a and b; there is an edge exactly when that number is
      positive, and the graph satisfies the graph invariant. */
  lemma AffinityWeight(ws: seq<string>, a: string, b: string)
    ensures Graphs.Weight(Affinity(ws), a, b) == Count(ws, a, b)
    ensures (a, b) in Affinity(ws).edges <==> Count(ws, a, b) > 0
    ensures Graphs.Valid(Affinity(ws))
  {
    var g := Affinity(ws);
    if (a, b) in AdjacentPairs(ws) {
      var i :| 0 <= i < |ws| - 1 && PairAt(ws, i) == (a, b);
      assert i in Adjacencies(ws, a, b);
    } else {
      forall i | 0 <= i < |ws| - 1 ensures !(ws[i] == a && ws[i + 1] == b) {
        assert PairAt(ws, i) in AdjacentPairs(ws);
      }
      assert Adjacencies(ws, a, b) == {};
    }
    forall p | p in g.edges ensures g.edges[p] > 0 && p.0 in g.vertices && p.1 in g.vertices {
      var i :| 0 <= i < |ws| - 1 && PairAt(ws, i) == p;
      assert i in Adjacencies(ws, p.0, p.1);
      assert ws[i] in ws && ws[i + 1] in ws;
    }
  }

  /** One more word adds one adjacency, at the pair it ends. */
  lemma CountSnoc(ws: seq<string>, w: string, a: string, b: string)
    requires ws != []
    ensures Count(ws + [w], a, b)
         == Count(ws, a, b) + (if ws[|ws| - 1] == a && w == b then 1 else 0)
  {
    var n := |ws| - 1;
    var before := Adjacencies(ws, a, b);
    var after := Adjacencies(ws + [w], a, b);
    assert n !in before;
    if ws[n] == a && w == b {
      assert after == before + {n};
    } else {
      assert after == before;
    }
  }

  /** The corpus' one-word prefix: a graph of one vertex and no edge. */
  lemma AffinityFirst(w: string)
    ensures Affinity([w]) == Graphs.Add(Graphs.Empty(), w)
  {
    assert (set x | x in [w]) == {w};
    assert AdjacentPairs([w]) == {};
  }

  /** The step of the construction: reading one more word w after previous
      word `last` makes w a vertex and raises the weight of last -> w by one. */
  lemma AffinityStep(ws: seq<string>, w: string)
    requires ws != []
    ensures Affinity(ws + [w])
         == Graphs.SetEdge(Graphs.Add(Affinity(ws), w), ws[|ws| - 1], w, Count(ws, ws[|ws| - 1], w) + 1)
  {
    var last := ws[|ws| - 1];
    var g := Affinity(ws);
    var h := Affinity(ws + [w]);
    var r := Graphs.SetEdge(Graphs.Add(g, w), last, w, Count(ws, last, w) + 1);
    WordSetSnoc(ws, w);
    AdjacentPairsSnoc(ws, w);
    forall p | p in h.edges ensures p in r.edges && r.edges[p] == h.edges[p] {
      CountSnoc(ws, w, p.0, p.1);
    }
    assert h.edges == r.edges;
  }

  /** The words of ws + [w] are those of ws and w. */
  lemma WordSetSnoc(ws: seq<string>, w: string)
    ensures (set x | x in ws + [w]) == (set x | x in ws) + {w}
  {
    forall x ensures x in ws + [w] <==> x in ws || x == w {
    }
  }

  /** The adjacent pairs of ws + [w] are those of ws and the pair w ends. */
  lemma AdjacentPairsSnoc(ws: seq<string>, w: string)
    requires ws != []
    ensures AdjacentPairs(ws + [w]) == AdjacentPairs(ws) + {(ws[|ws| - 1], w)}
  {
    var ext := ws + [w];
    forall p | p in AdjacentPairs(ext) ensures p in AdjacentPairs(ws) + {(ws[|ws| - 1], w)} {
      var i :| 0 <= i < |ext| - 1 && PairAt(ext, i) == p;
      if i < |ws| - 1 {
        assert PairAt(ws, i) == p;
      }
    }
    forall p | p in AdjacentPairs(ws) ensures p in AdjacentPairs(ext) {
      var i :| 0 <= i < |ws| - 1 && PairAt(ws, i) == p;
      assert PairAt(ext, i) == p;
    }
    assert PairAt(ext, |ws| - 1) == (ws[|ws| - 1], w);
  }

  /** The prefix of one word of a corpus. */
  lemma AffinityStart(ws: seq<string>)
    requires ws != []
    ensures Affinity(ws[..1]) == Graphs.Add(Graphs.Empty(), ws[0])
  {
    assert ws[..1] == [ws[0]];
    AffinityFirst(ws[0]);
  }

  /** The prefix of i + 1 words from that of i words, as the construction
      reads word i after word i - 1. */
  lemma AffinityNext(ws: seq<string>, i: int)
    requires 0 < i < |ws|
    ensures Affinity(ws[..i + 1])
         == Graphs.SetEdge(Graphs.Add(Affinity(ws[..i]), ws[i]), ws[i - 1], ws[i],
                           Graphs.Weight(Affinity(ws[..i]), ws[i - 1], ws[i]) + 1)
  {
    var prefix, w := ws[..i], ws[i];
    assert ws[..i + 1] == prefix + [w];
    assert prefix[|prefix| - 1] == ws[i - 1];
    AffinityWeight(prefix, ws[i - 1], w);
    AffinityStep(prefix, w);
  }

  /** No corpus word: no vertex and no edge. */
  lemma AffinityEmpty()
    ensures Affinity([]) == Graphs.Empty()
  {
    assert (set x: string | x in []) == {};
    assert AdjacentPairs([]) == {};
  }

  /** Every vertex of the graph of lower-cased tokens is already lower-case,
      so lower-casing an input word before looking it up can only match it
      against vertices, never miss one because of case. */
  lemma AffinityVerticesLower(tokens: seq<string>)
    ensures forall v :: v in Affinity(LowerAll(tokens)).vertices ==> Lower(v) == v
  {
    forall v | v in Affinity(LowerAll(tokens)).vertices ensures Lower(v) == v {
      var i :| 0 <= i < |tokens| && LowerAll(tokens)[i] == v;
      LowerIdempotent(tokens[i]);
    }
  }

  // ---------------------------------------------------------------------
  // Bridge words
  // ---------------------------------------------------------------------

  /** b bridges prev and cur: prev -> b -> cur is a two-edge path. */
  ghost predicate IsBridge(g: Graphs.Graph<string>, prev: string, cur: string, b: string)
  {
    (prev, b) in g.edges && (b, cur) in g.edges
  }

  /** Total weight of the path prev -> b -> cur. */
  function Through(g: Graphs.Graph<string>, prev: string, b: string, cur: string): int
  {
    Graphs.Weight(g, prev, b) + Graphs.Weight(g, b, cur)
  }

  /** What may be inserted between prev and cur: nothing when no word bridges
      them, otherwise a bridge whose path weighs at least as much as any
      other bridge's. */
  ghost predicate BestBridge(g: Graphs.Graph<string>, prev: string, cur: string, choice: Option<string>)
  {
    match choice
    case None => forall b :: !IsBridge(g, prev, cur, b)
    case Some(b) =>
      && IsBridge(g, prev, cur, b)
      && forall c :: IsBridge(g, prev, cur, c) ==> Through(g, prev, c, cur) <= Through(g, prev, b, cur)
  }

  /** A bridge that is the only one is the one inserted. */
  lemma OnlyBridge(g: Graphs.Graph<string>, prev: string, cur: string, b: string, choice: Option<string>)
    requires IsBridge(g, prev, cur, b)
    requires forall c :: IsBridge(g, prev, cur, c) ==> c == b
    ensures BestBridge(g, prev, cur, choice) <==> choice == Some(b)
  {
  }

  /** Where no word bridges prev and cur, nothing is inserted. */
  lemma NothingToInsert(g: Graphs.Graph<string>, prev: string, cur: string, choice: Option<string>)
    requires BestBridge(g, prev, cur, None)
    ensures BestBridge(g, prev, cur, choice) <==> choice == None
  {
    if choice.Some? {
      assert !IsBridge(g, prev, cur, choice.value);
    }
  }

  /** The state of the bridge search once the candidates `seen` have been
      tried: a weight of 0 when none of them is a bridge, otherwise the
      kept word is a bridge, the weight is its path's, and no tried bridge
      is heavier. */
  ghost predicate BestSoFar(g: Graphs.Graph<string>, prev: string, cur: string,
                            seen: set<string>, word: string, weight: int)
  {
    && weight >= 0
    && (weight == 0 ==> forall b :: b in seen ==> !IsBridge(g, prev, cur, b))
    && (weight != 0 ==>
          && IsBridge(g, prev, cur, word)
          && weight == Through(g, prev, word, cur)
          && forall b :: b in seen && IsBridge(g, prev, cur, b) ==> Through(g, prev, b, cur) <= weight)
  }

  /** Trying one more candidate b, whose path weight w is 0 when it is not a
      bridge, and keeping it exactly when it is strictly heavier than the
      weight kept so far, keeps the search state. */
  lemma Consider(g: Graphs.Graph<string>, prev: string, cur: string, seen: set<string>,
                 word: string, weight: int, b: string, w: int, word': string, weight': int)
    requires Graphs.Valid(g)
    requires BestSoFar(g, prev, cur, seen, word, weight)
    requires IsBridge(g, prev, cur, b) ==> w == Through(g, prev, b, cur)
    requires !IsBridge(g, prev, cur, b) ==> w == 0
    requires w > weight ==> word' == b && weight' == w
    requires w <= weight ==> word' == word && weight' == weight
    ensures BestSoFar(g, prev, cur, seen + {b}, word', weight')
  {
    if IsBridge(g, prev, cur, b) {
      assert w > 0;
    }
  }

  /** The search over all targets of prev ends in the best bridge: every
      bridge is a target of prev. */
  lemma SearchDone(g: Graphs.Graph<string>, prev: string, cur: string,
                   seen: set<string>, word: string, weight: int)
    requires BestSoFar(g, prev, cur, seen, word, weight)
    requires forall b :: IsBridge(g, prev, cur, b) ==> b in seen
    ensures weight == 0 <==> BestBridge(g, prev, cur, None)
    ensures weight != 0 ==> BestBridge(g, prev, cur, Some(word)) && weight == Through(g, prev, word, cur)
  {
  }

  // ---------------------------------------------------------------------
  // Assembling the poem
  // ---------------------------------------------------------------------

  /** What the word w of a poem whose first word is `first` contributes: a
      word equal to the first one is glued on as it is; any other is
      preceded by one space, and by the bridge word and a space when there
      is a bridge. */
  function Piece(first: string, w: string, choice: Option<string>): (r: string)
    ensures w == first ==> r == w
    ensures w != first && choice.None? ==> r == " " + w
    ensures w != first && choice.Some? ==> r == " " + choice.value + " " + w
  {
    if w == first then w
    else match choice
      case None => " " + w
      case Some(b) => " " + b + " " + w
  }

  /** The poem of the input words ws, with cs[j] the bridge choice between
      ws[j - 1] and ws[j]. */
  function Render(ws: seq<string>, cs: seq<Option<string>>): string
    requires |cs| == |ws|
  {
    if ws == [] then []
    else Render(ws[..|ws| - 1], cs[..|cs| - 1]) + Piece(ws[0], ws[|ws| - 1], cs[|cs| - 1])
  }

  /** Rendering one more word appends its piece. */
  lemma RenderSnoc(ws: seq<string>, cs: seq<Option<string>>, j: int, c: Option<string>)
    requires 0 <= j < |ws| && |cs| == j
    ensures Render(ws[..j + 1], cs + [c]) == Render(ws[..j], cs) + Piece(ws[0], ws[j], c)
  {
    assert ws[..j + 1][..j] == ws[..j];
    assert (cs + [c])[..j] == cs;
  }

  /** Every one of the first n words of ws that differs from the first word
      comes after a permitted bridge choice cs[k] for its lower-cased
      predecessor and itself. */
  ghost predicate BestChoices(g: Graphs.Graph<string>, ws: seq<string>, cs: seq<Option<string>>, n: int)
    requires n <= |ws| && n <= |cs|
  {
    forall k :: 0 < k < n && ws[k] != ws[0] ==> BestBridge(g, Lower(ws[k - 1]), Lower(ws[k]), cs[k])
  }

  /** Extending the choices by one that is permitted for word j. */
  lemma BestChoicesSnoc(g: Graphs.Graph<string>, ws: seq<string>, cs: seq<Option<string>>, j: int, c: Option<string>)
    requires 0 <= j < |ws| && |cs| == j && BestChoices(g, ws, cs, j)
    requires j > 0 && ws[j] != ws[0] ==> BestBridge(g, Lower(ws[j - 1]), Lower(ws[j]), c)
    ensures BestChoices(g, ws, cs + [c], j + 1)
  {
    forall k | 0 < k < j + 1 && ws[k] != ws[0]
      ensures BestBridge(g, Lower(ws[k - 1]), Lower(ws[k]), (cs + [c])[k])
    {
      if k < j {
        assert (cs + [c])[k] == cs[k];
      }
    }
  }

  /** No later word equals the first, and no bridge is chosen anywhere. */
  ghost predicate Plain(ws: seq<string>, cs: seq<Option<string>>)
    requires |cs| == |ws|
  {
    forall j :: 0 < j < |ws| ==> ws[j] != ws[0] && cs[j] == None
  }

  /** A non-empty prefix of a plain rendering is plain. */
  lemma PlainPrefix(ws: seq<string>, cs: seq<Option<string>>, n: int)
    requires |cs| == |ws| && 0 < n <= |ws| && Plain(ws, cs)
    ensures Plain(ws[..n], cs[..n])
  {
    forall j | 0 < j < n
      ensures ws[..n][j] != ws[..n][0] && cs[..n][j] == None
    {
      assert ws[j] != ws[0] && cs[j] == None;
    }
  }

  /** Without any bridge, and with no later word equal to the first, the
      poem is the input words separated by single spaces. */
  lemma {:induction false} RenderPlain(ws: seq<string>, cs: seq<Option<string>>)
    requires |cs| == |ws| && Plain(ws, cs)
    ensures Render(ws, cs) == Join(ws)
    decreases |ws|
  {
    if |ws| == 1 {
      assert Render(ws, cs) == Render([], []) + Piece(ws[0], ws[0], cs[0]);
    } else if |ws| > 1 {
      var n := |ws| - 1;
      PlainPrefix(ws, cs, n);
      RenderPlain(ws[..n], cs[..n]);
      assert ws[n] != ws[0] && cs[n] == None;
      JoinSnoc(ws[..n], ws[n]);
      assert ws[..n] + [ws[n]] == ws;
    }
  }

  /** A poem all of whose words stay apart from the first and none of whose
      adjacent pairs has a bridge is its input with single spaces. */
  lemma NoBridgePoem(g: Graphs.Graph<string>, ws: seq<string>, cs: seq<Option<string>>)
    requires |cs| == |ws|
    requires forall j :: 0 < j < |ws| ==> ws[j] != ws[0]
    requires forall j :: 0 < j < |ws| ==> BestBridge(g, Lower(ws[j - 1]), Lower(ws[j]), None)
    requires forall j :: 0 < j < |ws| ==> BestBridge(g, Lower(ws[j - 1]), Lower(ws[j]), cs[j])
    ensures Render(ws, cs) == Join(ws)
  {
    forall j | 0 < j < |ws| ensures cs[j] == None {
      NothingToInsert(g, Lower(ws[j - 1]), Lower(ws[j]), cs[j]);
    }
    RenderPlain(ws, cs);
  }

  /** With an empty corpus no bridge exists, so an input of distinct words
      separated by single spaces comes back unchanged. */
  lemma EmptyCorpusPoem(ws: seq<string>, cs: seq<Option<string>>)
    requires |cs| == |ws|
    requires forall j :: 0 <= j < |ws| ==> IsWord(ws[j])
    requires forall j :: 0 < j < |ws| ==> ws[j] != ws[0]
    requires forall j :: 0 < j < |ws| ==> BestBridge(Affinity([]), Lower(ws[j - 1]), Lower(ws[j]), cs[j])
    ensures Words(Join(ws)) == ws
    ensures Render(ws, cs) == Join(ws)
  {
    AffinityEmpty();
    WordsOfJoin(ws);
    NoBridgePoem(Affinity([]), ws, cs);
  }

  /** "a b a": the last word equals the first, so it is glued on without a
      space even though it is not at the front. */
  lemma RepeatedFirstWord(c1: Option<string>, c2: Option<string>)
    requires c1 == None
    ensures Render(["a", "b", "a"], [None, c1, c2]) == "a ba"
  {
    var ws: seq<string> := ["a", "b", "a"];
    var cs := [None, c1, c2];
    assert ws[..2] == ["a", "b"] && cs[..2] == [None, c1];
    assert ws[..2][..1] == ["a"] && cs[..2][..1] == [None];
    assert Render(["a"], [None]) == "a";
  }

  /** An input of spaces only (the empty input included) gives the empty
      poem. */
  lemma BlankPoem(input: string, cs: seq<Option<string>>)
    requires forall i :: 0 <= i < |input| ==> input[i] == ' '
    requires |cs| == |Words(input)|
    ensures Render(Words(input), cs) == ""
  {
    WordsOfBlank(input);
  }

  /** Every edge of an affinity graph comes from a position of the corpus. */
  lemma AffinityEdgeWitness(ws: seq<string>, a: string, b: string) returns (i: int)
    requires (a, b) in Affinity(ws).edges
    ensures 0 <= i < |ws| - 1 && ws[i] == a && ws[i + 1] == b
  {
    i :| 0 <= i < |ws| - 1 && PairAt(ws, i) == (a, b);
  }

  /** Every adjacent pair of the corpus is an edge of its affinity graph. */
  lemma AffinityEdgeAt(ws: seq<string>, i: int)
    requires 0 <= i < |ws| - 1
    ensures (ws[i], ws[i + 1]) in Affinity(ws).edges
  {
    assert PairAt(ws, i) in AdjacentPairs(ws);
  }

  // ---------------------------------------------------------------------
  // The poet
  // ---------------------------------------------------------------------

  class GraphPoet {
    /** The word affinity graph. */
    const graph: EdgesGraph.ConcreteEdgesGraph<string>

    ghost predicate Valid()
      reads this, graph
    {
      graph.Valid()
    }

    /** Builds the affinity graph of the corpus' words, each lower-cased. The
        words are what a scanner yields, hence non-empty. */
    constructor (corpus: seq<string>)
      requires forall i :: 0 <= i < |corpus| ==> corpus[i] != []
      ensures Valid() && fresh(graph)
      ensures graph.Model() == Affinity(LowerAll(corpus))
    {
      graph := new EdgesGraph.ConcreteEdgesGraph();
      new;
      ReadCorpus(corpus);
    }

    /** The constructor's token loop: reads the corpus' words, lower-cased,
        into the still empty graph. This method, `ReadWord` and `Follow` are
        the constructor's code split into parts so that each proof stays
        small; only the constructor calls them, and the source offers no
        way to change a finished poet's graph. */
    method ReadCorpus(corpus: seq<string>)
      requires Valid() && graph.Model() == Graphs.Empty()
      requires forall i :: 0 <= i < |corpus| ==> corpus[i] != []
      modifies graph
      ensures Valid() && graph.Model() == Affinity(LowerAll(corpus))
    {
      ghost var lw := LowerAll(corpus);
      var startOfFile := true;
      var previousWord: string := [];
      var i := 0;
      AffinityEmpty();
      assert lw[..0] == [];
      while i < |corpus|
        invariant 0 <= i <= |corpus|
        invariant Valid()
        invariant startOfFile <==> i == 0
        invariant graph.Model() == Affinity(lw[..i])
        invariant i > 0 ==> previousWord == lw[i - 1]
      {
        var newWord := corpus[i];
        newWord := Lower(newWord);
        previousWord := ReadWord(lw, i, startOfFile, previousWord, newWord);
        startOfFile := false;
        i := i + 1;
      }
      assert lw[..i] == lw;
    }

    /** The loop body for one token: newWord, the lower-cased word at
        position i of the corpus, becomes a vertex and, unless it is the
        first word, the weight of previousWord -> newWord goes up by one.
        Returns the word the next token follows. */
    method ReadWord(ghost ws: seq<string>, i: int, startOfFile: bool, previousWord: string, newWord: string)
      returns (nextPrevious: string)
      requires Valid() && 0 <= i < |ws| && newWord == ws[i] && newWord != []
      requires startOfFile <==> i == 0
      requires i > 0 ==> previousWord == ws[i - 1]
      requires graph.Model() == Affinity(ws[..i])
      modifies graph
      ensures Valid() && graph.Model() == Affinity(ws[..i + 1]) && nextPrevious == ws[i]
    {
      nextPrevious := previousWord;
      if startOfFile && newWord != [] {
        var _ := graph.Add(newWord);
        nextPrevious := newWord;
        AffinityStart(ws);
      } else if newWord != [] {
        AffinityNext(ws, i);
        Follow(previousWord, newWord);
        nextPrevious := newWord;
      }
    }

    /** One adjacency of the corpus read: the new word becomes a vertex and
        the weight of previousWord -> newWord goes up by one (from 0 when
        there was no such edge). */
    method Follow(previousWord: string, newWord: string)
      requires Valid()
      modifies graph
      ensures Valid()
      ensures graph.Model()
           == Graphs.SetEdge(Graphs.Add(old(graph.Model()), newWord), previousWord, newWord,
                             Graphs.Weight(old(graph.Model()), previousWord, newWord) + 1)
    {
      var _ := graph.Add(newWord);
      var sources := graph.Sources(newWord);
      if previousWord in sources {
        var newWordSources := graph.Sources(newWord);
        var previousWeight := newWordSources[previousWord];
        previousWeight := previousWeight + 1;
        var _ := graph.Set(previousWord, newWord, previousWeight);
      } else {
        var _ := graph.Set(previousWord, newWord, 1);
      }
    }

    /** The bridge search between two lower-cased words: a weight of 0 when
        no word bridges them, and otherwise a bridge of greatest path weight
        together with that weight. Candidates are tried in an unspecified
        order, the first strictly heavier one replacing the one kept. */
    method SelectBridge(previousWordLC: string, currentWordLC: string)
      returns (maxBridgeWord: string, maxWeightBridge: int)
      requires Valid()
      ensures maxWeightBridge == 0 <==> BestBridge(graph.Model(), previousWordLC, currentWordLC, None)
      ensures maxWeightBridge != 0 ==>
                && BestBridge(graph.Model(), previousWordLC, currentWordLC, Some(maxBridgeWord))
                && maxWeightBridge == Through(graph.Model(), previousWordLC, maxBridgeWord, currentWordLC)
    {
      ghost var g := graph.Model();
      var vs := graph.Vertices();
      var pwInGraph := previousWordLC in vs;
      var cwInGraph := currentWordLC in vs;
      var targetsMap := graph.Targets(previousWordLC);
      var sourcesMap := graph.Sources(currentWordLC);
      var targetsOfpw := targetsMap.Keys;
      var sourcesOfcw := sourcesMap.Keys;
      maxBridgeWord := [];
      maxWeightBridge := 0;
      var unseen := targetsOfpw;
      ghost var seen := {};
      while unseen != {}
        invariant unseen <= targetsOfpw && seen == targetsOfpw - unseen
        invariant BestSoFar(g, previousWordLC, currentWordLC, seen, maxBridgeWord, maxWeightBridge)
        decreases |unseen|
      {
        var currentBridgeWord :| currentBridgeWord in unseen;
        ghost var word, weight := maxBridgeWord, maxWeightBridge;
        var currentWeights := 0;
        if pwInGraph && cwInGraph && currentBridgeWord in sourcesOfcw {
          currentWeights := PathWeight(previousWordLC, currentBridgeWord, currentWordLC);
          if currentWeights > maxWeightBridge {
            maxWeightBridge := currentWeights;
            maxBridgeWord := currentBridgeWord;
          }
        } else {
          assert !IsBridge(g, previousWordLC, currentWordLC, currentBridgeWord);
        }
        Consider(g, previousWordLC, currentWordLC, seen, word, weight,
                 currentBridgeWord, currentWeights, maxBridgeWord, maxWeightBridge);
        seen := seen + {currentBridgeWord};
        unseen := unseen - {currentBridgeWord};
      }
      forall b | IsBridge(g, previousWordLC, currentWordLC, b) ensures b in seen {
        assert b in targetsMap;
      }
      SearchDone(g, previousWordLC, currentWordLC, seen, maxBridgeWord, maxWeightBridge);
    }

    /** The weight of the path prev -> b -> cur, read off the sources of b
        and the targets of b. */
    method PathWeight(prev: string, b: string, cur: string) returns (w: int)
      requires Valid() && IsBridge(graph.Model(), prev, cur, b)
      ensures w == Through(graph.Model(), prev, b, cur) && w > 0
    {
      var fromPrevious := graph.Sources(b);
      var toCurrent := graph.Targets(b);
      w := fromPrevious[prev] + toCurrent[cur];
    }

    /** What the body of `poem`'s loop appends for currentWord, which follows
        previousWord in the input words: the word alone when it is the first
        word (by `indexOf`), otherwise a space and the word, with the best
        bridge and a space in between when there is a bridge. */
    method Emit(inputAsList: seq<string>, previousWord: string, currentWord: string)
      returns (piece: string, ghost choice: Option<string>)
      requires Valid() && currentWord in inputAsList
      ensures piece == Piece(inputAsList[0], currentWord, choice)
      ensures currentWord != inputAsList[0] ==>
                BestBridge(graph.Model(), Lower(previousWord), Lower(currentWord), choice)
      ensures currentWord == inputAsList[0] ==> piece == currentWord
      ensures currentWord != inputAsList[0] && BestBridge(graph.Model(), Lower(previousWord), Lower(currentWord), None)
              ==> piece == " " + currentWord
    {
      if IndexOf(inputAsList, currentWord) == 0 {
        piece := currentWord;
        choice := None;
      } else {
        var previousWordLC := Lower(previousWord);
        var currentWordLC := Lower(currentWord);
        var maxBridgeWord, maxWeightBridge := SelectBridge(previousWordLC, currentWordLC);
        if maxWeightBridge != 0 {
          piece := " " + maxBridgeWord + " " + currentWord;
          choice := Some(maxBridgeWord);
        } else {
          piece := " " + currentWord;
          choice := None;
        }
      }
    }

    /** `poem`: the input is split on spaces, empty pieces dropped; a word
        equal to the first word is emitted as it is, every other one after a
        space and, when its predecessor and it have a bridge, after the
        bridge word of greatest path weight and a space. `choices` records
        the bridge taken before each word. */
    method Poem(input: string) returns (outputPoem: string, ghost choices: seq<Option<string>>)
      requires Valid()
      ensures var ws := Words(input);
              && |choices| == |ws|
              && outputPoem == Render(ws, choices)
              && BestChoices(graph.Model(), ws, choices, |ws|)
    ensures var ws := Words(input);
            (forall j :: 0 < j < |ws| ==> ws[j] != ws[0] && BestBridge(graph.Model(), Lower(ws[j - 1]), Lower(ws[j]), None))
            ==> outputPoem == Join(ws)
    {
      ghost var g := graph.Model();
      outputPoem := [];
      var inputAsList := Words(input);
      var previousWord: string := [];
      choices := [];
      for j := 0 to |inputAsList|
        invariant |choices| == j
        invariant outputPoem == Render(inputAsList[..j], choices)
        invariant j > 0 ==> previousWord == inputAsList[j - 1]
        invariant BestChoices(g, inputAsList, choices, j)
      {
        var currentWord := inputAsList[j];
        var piece, choice := Emit(inputAsList, previousWord, currentWord);
        outputPoem := outputPoem + piece;
        RenderSnoc(inputAsList, choices, j, choice);
        BestChoicesSnoc(g, inputAsList, choices, j, choice);
        choices := choices + [choice];
        previousWord := currentWord;
      }
      assert inputAsList[..|inputAsList|] == inputAsList;
      if forall j :: 0 < j < |inputAsList| ==>
           inputAsList[j] != inputAsList[0] && BestBridge(g, Lower(inputAsList[j - 1]), Lower(inputAsList[j]), None)
      {
        NoBridgePoem(g, inputAsList, choices);
      }
    }
  }
}
