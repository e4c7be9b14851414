/**
 * The worked examples of the poet's documentation, proved on the model: the
 * affinity graph of "Hello, HELLO, hello, goodbye!" and the poem made from
 * "Test the system." on the corpus "This is a test of the Mugar Omni Theater
 * sound system.".
 */
module PoetExamples {
  import opened Text
  import opened Poet

  /** The lower-cased words of the corpus "Hello, HELLO, hello, goodbye!". */
  lemma HelloLower()
    ensures LowerAll(["Hello,", "HELLO,", "hello,", "goodbye!"]) == ["hello,", "hello,", "hello,", "goodbye!"]
  {
    var c: seq<string> := ["Hello,", "HELLO,", "hello,", "goodbye!"];
    assert Lower(c[0]) == "hello," by { assert Lower(c[0])[0] == 'h'; }
    assert Lower(c[1]) == "hello," by {
      var l := Lower(c[1]);
      assert l[0] == 'h' && l[1] == 'e' && l[2] == 'l' && l[3] == 'l' && l[4] == 'o' && l[5] == ',';
    }
    assert Lower(c[2]) == c[2] && Lower(c[3]) == c[3];
  }

  /** The adjacency counts of the lower-cased Hello corpus. */
  lemma HelloCounts(ws: seq<string>)
    requires ws == ["hello,", "hello,", "hello,", "goodbye!"]
    ensures Count(ws, "hello,", "hello,") == 2 && Count(ws, "hello,", "goodbye!") == 1
  {
    assert Adjacencies(ws, "hello,", "hello,") == {0, 1};
    assert Adjacencies(ws, "hello,", "goodbye!") == {2};
  }

  /** The affinity graph of the lower-cased Hello corpus. */
  lemma HelloGraph(ws: seq<string>)
    requires ws == ["hello,", "hello,", "hello,", "goodbye!"]
    ensures Affinity(ws).vertices == {"hello,", "goodbye!"}
    ensures Affinity(ws).edges == map[("hello,", "hello,") := 2, ("hello,", "goodbye!") := 1]
  {
    var g := Affinity(ws);
    assert ws[0] in ws && ws[3] in ws;
    HelloCounts(ws);
    AffinityWeight(ws, "hello,", "hello,");
    AffinityWeight(ws, "hello,", "goodbye!");
    forall p | p in g.edges ensures p == ("hello,", "hello,") || p == ("hello,", "goodbye!") {
      var i := AffinityEdgeWitness(ws, p.0, p.1);
    }
  }

  /** The documented example: the corpus "Hello, HELLO, hello, goodbye!"
      gives two vertices and two edges, "hello," -> "hello," of weight 2 and
      "hello," -> "goodbye!" of weight 1. */
  lemma HelloAffinity()
    ensures var g := Affinity(LowerAll(["Hello,", "HELLO,", "hello,", "goodbye!"]));
            && g.vertices == {"hello,", "goodbye!"}
            && g.edges == map[("hello,", "hello,") := 2, ("hello,", "goodbye!") := 1]
  {
    HelloLower();
    HelloGraph(LowerAll(["Hello,", "HELLO,", "hello,", "goodbye!"]));
  }

  /** The corpus "This is a test of the Mugar Omni Theater sound system.",
      lower-cased. */
  function MugarWords(): seq<string>
  {
    ["this", "is", "a", "test", "of", "the", "mugar", "omni", "theater", "sound", "system."]
  }

  /** In the affinity graph of the Mugar corpus, "of" is the one bridge from
      "test" to "the". */
  lemma MugarBridgeOf(choice: Option<string>)
    ensures BestBridge(Affinity(MugarWords()), "test", "the", choice) <==> choice == Some("of")
  {
    var ws := MugarWords();
    forall c | IsBridge(Affinity(ws), "test", "the", c) ensures c == "of" {
      var i := AffinityEdgeWitness(ws, "test", c);
    }
    AffinityEdgeAt(ws, 3);
    AffinityEdgeAt(ws, 4);
    OnlyBridge(Affinity(ws), "test", "the", "of", choice);
  }

  /** In the affinity graph of the Mugar corpus, nothing bridges "the" and
      "system.". */
  lemma MugarNoBridge(choice: Option<string>)
    ensures BestBridge(Affinity(MugarWords()), "the", "system.", choice) <==> choice == None
  {
    var ws := MugarWords();
    forall c | IsBridge(Affinity(ws), "the", "system.", c) ensures false {
      var i := AffinityEdgeWitness(ws, "the", c);
      var j := AffinityEdgeWitness(ws, c, "system.");
    }
    NothingToInsert(Affinity(ws), "the", "system.", choice);
  }

  /** The Mugar corpus as its scanner yields it. */
  function MugarCorpus(): seq<string>
  {
    ["This", "is", "a", "test", "of", "the", "Mugar", "Omni", "Theater", "sound", "system."]
  }

  /** Lower-casing the scanned corpus gives its words. */
  lemma MugarLower()
    ensures LowerAll(MugarCorpus()) == MugarWords()
  {
    var c, w := MugarCorpus(), MugarWords();
    assert Lower(c[0]) == w[0] by { assert Lower(c[0])[0] == 't'; }
    assert Lower(c[6]) == w[6] by { assert Lower(c[6])[0] == 'm'; }
    assert Lower(c[7]) == w[7] by { assert Lower(c[7])[0] == 'o'; }
    assert Lower(c[8]) == w[8] by { assert Lower(c[8])[0] == 't'; }
    forall i | 0 <= i < |c| ensures Lower(c[i]) == w[i] {
      if i !in {0, 6, 7, 8} {
        assert Lower(c[i]) == c[i];
      }
    }
  }

  /** The words of the example input. */
  lemma MugarInput()
    ensures Words("Test the system.") == ["Test", "the", "system."]
  {
    var ws: seq<string> := ["Test", "the", "system."];
    assert Join(ws) == "Test the system.";
    WordsOfJoin(ws);
  }

  /** The example poem, once its bridges are known. */
  lemma MugarRender(c0: Option<string>)
    ensures Render(["Test", "the", "system."], [c0, Some("of"), None]) == "Test of the system."
  {
    var ws: seq<string> := ["Test", "the", "system."];
    var cs := [c0, Some("of"), None];
    assert ws[..2] == ["Test", "the"] && cs[..2] == [c0, Some("of")];
    assert ws[..2][..1] == ["Test"] && cs[..2][..1] == [c0];
    assert Render(["Test"], [c0]) == "Test";
  }

  /** The documented example: on the Mugar corpus, the input
      "Test the system." becomes "Test of the system.", whichever choices
      satisfy the poem's contract. */
  lemma MugarPoem(input: string, cs: seq<Option<string>>)
    requires input == "Test the system."
    requires |cs| == |Words(input)|
    requires BestChoices(Affinity(LowerAll(MugarCorpus())), Words(input), cs, |cs|)
    ensures Render(Words(input), cs) == "Test of the system."
  {
    var ws := Words(input);
    var g := Affinity(LowerAll(MugarCorpus()));
    MugarInput();
    assert ws == ["Test", "the", "system."];
    MugarLower();
    assert g == Affinity(MugarWords());
    MugarLowerInput();
    assert Lower(ws[0]) == "test" && Lower(ws[1]) == "the" && Lower(ws[2]) == "system.";
    assert ws[1] != ws[0] && ws[2] != ws[0];
    assert BestBridge(g, "test", "the", cs[1]);
    assert BestBridge(g, "the", "system.", cs[2]);
    MugarBridgeOf(cs[1]);
    MugarNoBridge(cs[2]);
    assert cs == [cs[0], Some("of"), None];
    MugarRender(cs[0]);
  }

  /** The example input's words, lower-cased. */
  lemma MugarLowerInput()
    ensures Lower("Test") == "test" && Lower("the") == "the" && Lower("system.") == "system."
  {
    assert Lower("Test")[0] == 't';
  }
}
