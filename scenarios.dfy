/** Whole rounds worked through on concrete words. */
module Scenarios {
  import opened Colors
  import opened Constraints
  import opened Filtering

  /** The feedback "T:C R:G A:G C:C E:Y" for the guess TRACE. */
  function TraceFeedback(): seq<Letter>
  {
    [Letter("T", Gray), Letter("R", Green), Letter("A", Green), Letter("C", Gray), Letter("E", Yellow)]
  }

  /** The alphabet without T. */
  function NoT(): set<string>
  {
    Alphabet() - {"T"}
  }

  /** Removing T leaves 25 letters. */
  lemma NoTSize()
    ensures |NoT()| == 25
  {
    AlphabetIsAToZ("T");
  }

  /** The state after T:C R:G A:G, from a fresh state. */
  lemma TraceFirstThree()
    ensures Fits(TraceFeedback(), WordLength)
    ensures Apply(Fresh(), TraceFeedback()[..3]) == Knowledge([NoT(), {"R"}, {"A"}, NoT(), NoT()], {"R", "A"})
  {
    var g := TraceFeedback();
    AlphabetIsAToZ("T");
    assert g[..1][..0] == [] && g[..2][..1] == g[..1] && g[..3][..2] == g[..2];
    assert Apply(Fresh(), g[..1]).word == [NoT(), NoT(), NoT(), NoT(), NoT()];
  }

  /** The state after T:C R:G A:G C:C, from a fresh state. */
  lemma TraceFirstFour()
    ensures Fits(TraceFeedback(), WordLength)
    ensures Apply(Fresh(), TraceFeedback()[..4]) ==
      Knowledge([NoT() - {"C"}, {"R"}, {"A"}, NoT() - {"C"}, NoT() - {"C"}], {"R", "A"})
  {
    var g := TraceFeedback();
    TraceFirstThree();
    NoTSize();
    assert g[..4][..3] == g[..3];
    var before := Apply(Fresh(), g[..3]).word;
    assert GrayRemove(before, "C") == [NoT() - {"C"}, {"R"}, {"A"}, NoT() - {"C"}, NoT() - {"C"}];
  }

  /** The state after the whole TRACE feedback, from a fresh state. */
  lemma TraceAll()
    ensures Fits(TraceFeedback(), WordLength)
    ensures Apply(Fresh(), TraceFeedback()) ==
      Knowledge([NoT() - {"C"}, {"R"}, {"A"}, NoT() - {"C"}, NoT() - {"C", "E"}], {"R", "A", "E"})
  {
    var g := TraceFeedback();
    TraceFirstFour();
    assert g[..5][..4] == g[..4] && g[..5] == g;
    var k4 := Apply(Fresh(), g[..4]);
    assert Apply(Fresh(), g) == Step(k4, 4, g[4]);
    assert (NoT() - {"C"}) - {"E"} == NoT() - {"C", "E"};
    assert k4.word[4 := (NoT() - {"C"}) - {"E"}] == [NoT() - {"C"}, {"R"}, {"A"}, NoT() - {"C"}, NoT() - {"C", "E"}];
  }

  /** The state TraceAll arrives at. */
  function TraceKnowledge(): Knowledge
  {
    Knowledge([NoT() - {"C"}, {"R"}, {"A"}, NoT() - {"C"}, NoT() - {"C", "E"}], {"R", "A", "E"})
  }

  /** BRAES contains R, A and E. */
  lemma BraesHasRequired()
    ensures HasRequiredChars("BRAES", TraceKnowledge())
  {
    assert "BRAES"[1] == 'R' && "BRAES"[2] == 'A' && "BRAES"[3] == 'E';
  }

  /** Each letter of BRAES is allowed at its position. */
  lemma BraesHasValid()
    ensures HasValidChars("BRAES", TraceKnowledge())
  {
    AlphabetIsAToZ("B");
    AlphabetIsAToZ("E");
    AlphabetIsAToZ("S");
    assert ["BRAES"[0]] == "B" && ["BRAES"[3]] == "E" && ["BRAES"[4]] == "S";
  }

  /** BRAES passes both tests after the TRACE feedback. */
  lemma TraceKeepsBraes()
    ensures Keeps("BRAES", TraceKnowledge())
  {
    BraesHasRequired();
    BraesHasValid();
  }

  /** CRANE, SLATE and TRACE each have a letter banned at its position. */
  lemma TraceDropsOthers()
    ensures !Keeps("CRANE", TraceKnowledge())
    ensures !Keeps("SLATE", TraceKnowledge())
    ensures !Keeps("TRACE", TraceKnowledge())
  {
    var k := TraceKnowledge();
    assert ["CRANE"[0]] == "C" && "C" !in k.word[0];
    assert ["SLATE"[1]] == "L" && "L" !in k.word[1];
    assert ["TRACE"[0]] == "T" && "T" !in k.word[0];
  }

  /** A four-word list of which only the first word passes keeps only it. */
  lemma FilterFirstOfFour(a: string, b: string, c: string, d: string, k: Knowledge)
    requires |a| <= |k.word| && |b| <= |k.word| && |c| <= |k.word| && |d| <= |k.word|
    requires Keeps(a, k) && !Keeps(b, k) && !Keeps(c, k) && !Keeps(d, k)
    ensures Indexable([a, b, c, d], k)
    ensures Filter([a, b, c, d], k) == [a]
  {
    var ws := [a, b, c, d];
    assert ws[1..] == [b, c, d] && ws[1..][1..] == [c, d] && ws[1..][1..][1..] == [d];
    assert ws[1..][1..][1..][1..] == [];
    assert Filter([d], k) == [];
    assert Filter([c, d], k) == [];
    assert Filter([b, c, d], k) == [];
  }

  /** Of the four words, only BRAES passes the TRACE state. */
  lemma TraceFilter()
    ensures Indexable(["BRAES", "CRANE", "SLATE", "TRACE"], TraceKnowledge())
    ensures Filter(["BRAES", "CRANE", "SLATE", "TRACE"], TraceKnowledge()) == ["BRAES"]
  {
    TraceKeepsBraes();
    TraceDropsOthers();
    FilterFirstOfFour("BRAES", "CRANE", "SLATE", "TRACE", TraceKnowledge());
  }

  /** After that feedback: R and A are pinned, T and C are gone from the
      other positions, E is gone from the last, and R, A, E are required.
      Of BRAES, CRANE, SLATE and TRACE only BRAES survives. */
  lemma TraceRound()
    ensures Fits(TraceFeedback(), WordLength)
    ensures Apply(Fresh(), TraceFeedback()).required == {"R", "A", "E"}
    ensures Filter(["BRAES", "CRANE", "SLATE", "TRACE"], Apply(Fresh(), TraceFeedback())) == ["BRAES"]
  {
    TraceAll();
    TraceFilter();
  }

  /** The feedback "S:C P:C E:Y E:C D:Y" that the answer ABIDE gives the
      guess SPEED: the first E is present elsewhere, the second E is gray
      because the answer has only one E. */
  function SpeedFeedback(): seq<Letter>
  {
    [Letter("S", Gray), Letter("P", Gray), Letter("E", Yellow), Letter("E", Gray), Letter("D", Yellow)]
  }

  /** With a letter both YELLOW and GRAY in one guess, the GRAY rule removes
      it from every position while the YELLOW makes it required: no word
      survives, not even the answer ABIDE that produced the feedback. */
  lemma SpeedRoundLosesAnswer(ws: seq<string>)
    requires forall i :: 0 <= i < |ws| ==> |ws[i]| <= WordLength
    ensures Fits(SpeedFeedback(), WordLength)
    ensures Indexable(ws, Apply(Fresh(), SpeedFeedback()))
    ensures Filter(ws, Apply(Fresh(), SpeedFeedback())) == []
  {
    var g := SpeedFeedback();
    assert Fits(g, WordLength);
    var k := Apply(Fresh(), g);
    AlphabetIsAToZ("A");
    forall p | 0 <= p < WordLength ensures "E" !in k.word[p] {
      UnnamedLetterStays(Fresh(), g, "A", p);
      GrayExcludes(Fresh(), g, 3);
    }
    YellowExcludes(Fresh(), g, 2);
    RequiredNowhereEmpties(ws, k, "E");
  }
}
