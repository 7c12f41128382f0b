/** The per-position knowledge a WordleWord accumulates from the colours of
    successive guesses: for each of the five positions the set of letters still
    allowed there, and the set of letters the answer must contain. */
module Constraints {
  import opened Colors

  /** The letters a fresh position allows, in the order the source spells them. */
  const AllowedChars: string := "ABCDEFGHIJKLMNOPQRSTUVWXYZ"

  /** The number of positions of a word. */
  const WordLength: nat := 5

  /** The set of one-character strings drawn from the first n characters of s. */
  function CharSet(s: string, n: nat): set<string>
    requires n <= |s|
  {
    set i | 0 <= i < n :: [s[i]]
  }

  /** The allowed set of a fresh position: every character of AllowedChars. */
  function Alphabet(): set<string>
  {
    CharSet(AllowedChars, |AllowedChars|)
  }

  /** Each character of s is strictly below every later one. */
  predicate Ascending(s: string)
  {
    forall i, j :: 0 <= i < j < |s| ==> s[i] < s[j]
  }

  /** The character at index i of AllowedChars is the i-th capital letter. */
  lemma AllowedAt(i: int)
    requires 0 <= i < |AllowedChars|
    ensures AllowedChars[i] as int == 'A' as int + i
  {
  }

  /** The allowed characters are in strictly ascending order. */
  lemma AllowedAscending()
    ensures Ascending(AllowedChars)
  {
  }

  /** A string of strictly ascending characters contributes as many distinct
      one-character strings as it has characters. */
  lemma {:induction false} CharSetSize(s: string, n: nat)
    requires n <= |s| && Ascending(s)
    ensures |CharSet(s, n)| == n
  {
    if n > 0 {
      CharSetSize(s, n - 1);
      var last := [s[n - 1]];
      assert last !in CharSet(s, n - 1);
      assert CharSet(s, n) == CharSet(s, n - 1) + {last};
    }
  }

  /** A fresh position allows exactly the 26 one-letter strings "A" to "Z". */
  lemma AlphabetIsAToZ(s: string)
    ensures s in Alphabet() <==> |s| == 1 && 'A' <= s[0] <= 'Z'
    ensures |Alphabet()| == 26
  {
    if |s| == 1 && 'A' <= s[0] <= 'Z' {
      var i := s[0] as int - 'A' as int;
      AllowedAt(i);
      assert [AllowedChars[i]] == s;
    }
    if s in Alphabet() {
      var i :| 0 <= i < |AllowedChars| && s == [AllowedChars[i]];
      AllowedAt(i);
    }
    AllowedAscending();
    CharSetSize(AllowedChars, |AllowedChars|);
  }

  /** The value of a WordleWord: the allowed set of each position (`word` in
      the source) and the letters known to occur somewhere (`required_chars`). */
  datatype Knowledge = Knowledge(word: seq<set<string>>, required: set<string>)

  /** The knowledge of a fresh WordleWord. */
  function Fresh(): (k: Knowledge)
    ensures |k.word| == WordLength && k.required == {}
    ensures forall j :: 0 <= j < |k.word| ==> k.word[j] == Alphabet()
  {
    Knowledge(seq(WordLength, _ => Alphabet()), {})
  }

  /** What a GRAY letter does to the position sets: every set that does not
      have exactly one element loses the letter. */
  function GrayRemove(word: seq<set<string>>, c: string): (r: seq<set<string>>)
    ensures |r| == |word|
    ensures forall j :: 0 <= j < |word| ==> r[j] <= word[j] && r[j] - {c} == word[j] - {c}
    ensures forall j :: 0 <= j < |word| ==> (c in r[j] <==> c in word[j] && |word[j]| == 1)
  {
    seq(|word|, j requires 0 <= j < |word| => if |word[j]| == 1 then word[j] else word[j] - {c})
  }

  /** A guess whose YELLOW and GREEN letters all sit at an index that has a
      position set (the source indexes `word[idx]` for those two colours). */
  predicate Fits(letters: seq<Letter>, width: nat)
  {
    forall i :: 0 <= i < |letters| && letters[i].color != Gray ==> i < width
  }

  /** One letter of a guess, at index idx, folded into the knowledge. */
  function Step(k: Knowledge, idx: nat, l: Letter): (r: Knowledge)
    requires l.color != Gray ==> idx < |k.word|
    ensures |r.word| == |k.word|
    ensures r.required == if l.color == Gray then k.required else k.required + {l.text}
    ensures l.color != Gray ==> forall j :: 0 <= j < |k.word| && j != idx ==> r.word[j] == k.word[j]
    ensures l.color != Green ==> forall j :: 0 <= j < |k.word| ==> r.word[j] <= k.word[j]
    ensures l.color == Green ==> r.word[idx] == {l.text}
    ensures l.color == Yellow ==> l.text !in r.word[idx] && r.word[idx] + {l.text} >= k.word[idx]
    ensures l.color == Gray ==> forall j :: 0 <= j < |k.word| ==>
      r.word[j] - {l.text} == k.word[j] - {l.text} && (l.text in r.word[j] <==> l.text in k.word[j] && |k.word[j]| == 1)
  {
    match l.color
    case Gray => Knowledge(GrayRemove(k.word, l.text), k.required)
    case Yellow => Knowledge(k.word[idx := k.word[idx] - {l.text}], k.required + {l.text})
    case Green => Knowledge(k.word[idx := {l.text}], k.required + {l.text})
  }

  /** The letters of a guess folded into the knowledge, left to right, the
      letter at index i acting on position i. */
  function Apply(k: Knowledge, letters: seq<Letter>): (r: Knowledge)
    requires Fits(letters, |k.word|)
    ensures |r.word| == |k.word|
    decreases |letters|
  {
    if letters == [] then k
    else
      var n := |letters| - 1;
      Step(Apply(k, letters[..n]), n, letters[n])
  }

  /** The letters a guess marks YELLOW or GREEN. */
  function Marked(letters: seq<Letter>): set<string>
  {
    set i | 0 <= i < |letters| && letters[i].color != Gray :: letters[i].text
  }

  /** `required_chars` only grows: a guess adds exactly its YELLOW and GREEN
      letters to it. */
  lemma {:induction false} RequiredGrows(k: Knowledge, letters: seq<Letter>)
    requires Fits(letters, |k.word|)
    ensures Apply(k, letters).required == k.required + Marked(letters)
  {
    if letters != [] {
      var n := |letters| - 1;
      RequiredGrows(k, letters[..n]);
      MarkedLast(letters);
    }
  }

  /** The marked letters of a guess are those of all but its last letter,
      plus the last letter unless it is GRAY. */
  lemma MarkedLast(letters: seq<Letter>)
    requires letters != []
    ensures var n := |letters| - 1;
      Marked(letters) == Marked(letters[..n]) + (if letters[n].color == Gray then {} else {letters[n].text})
  {
  }

  /** A position no GREEN letter of the guess touches only loses letters. */
  lemma {:induction false} OnlyGreenWidens(k: Knowledge, letters: seq<Letter>, j: nat)
    requires Fits(letters, |k.word|) && j < |k.word|
    requires j >= |letters| || letters[j].color != Green
    ensures Apply(k, letters).word[j] <= k.word[j]
  {
    if letters != [] {
      var n := |letters| - 1;
      OnlyGreenWidens(k, letters[..n], j);
    }
  }

  /** A letter the guess never names stays allowed at every position that no
      GREEN letter of the guess pins. */
  lemma {:induction false} UnnamedLetterStays(k: Knowledge, letters: seq<Letter>, x: string, p: nat)
    requires Fits(letters, |k.word|) && p < |k.word| && x in k.word[p]
    requires forall i :: 0 <= i < |letters| ==> letters[i].text != x
    requires p >= |letters| || letters[p].color != Green
    ensures x in Apply(k, letters).word[p]
  {
    if letters != [] {
      var n := |letters| - 1;
      UnnamedLetterStays(k, letters[..n], x, p);
    }
  }

  /** A GREEN letter pins its own position to exactly that letter, whatever
      the letters after it in the same guess say: a later GRAY skips the
      now one-element set. */
  lemma {:induction false} GreenPins(k: Knowledge, letters: seq<Letter>, j: nat)
    requires Fits(letters, |k.word|) && j < |letters| && letters[j].color == Green
    ensures Apply(k, letters).word[j] == {letters[j].text}
    ensures letters[j].text in Apply(k, letters).required
  {
    var n := |letters| - 1;
    if j < n {
      GreenPins(k, letters[..n], j);
    }
    RequiredGrows(k, letters);
  }

  /** A YELLOW letter is never allowed at its own position afterwards, and is
      required. */
  lemma {:induction false} YellowExcludes(k: Knowledge, letters: seq<Letter>, j: nat)
    requires Fits(letters, |k.word|) && j < |letters| && letters[j].color == Yellow
    ensures letters[j].text !in Apply(k, letters).word[j]
    ensures letters[j].text in Apply(k, letters).required
  {
    var n := |letters| - 1;
    if j < n {
      YellowExcludes(k, letters[..n], j);
    }
    RequiredGrows(k, letters);
  }

  /** A GRAY letter survives only in positions whose set is exactly that one
      letter; in particular it is gone from every set of two or more letters. */
  lemma {:induction false} GrayExcludes(k: Knowledge, letters: seq<Letter>, j: nat)
    requires Fits(letters, |k.word|) && j < |letters| && letters[j].color == Gray
    ensures forall p :: 0 <= p < |k.word| && letters[j].text in Apply(k, letters).word[p] ==>
      Apply(k, letters).word[p] == {letters[j].text}
  {
    var n := |letters| - 1;
    if j < n {
      GrayExcludes(k, letters[..n], j);
    } else {
      var before := Apply(k, letters[..n]).word;
      forall p | 0 <= p < |k.word| && letters[j].text in Apply(k, letters).word[p]
        ensures Apply(k, letters).word[p] == {letters[j].text}
      {
        var t := letters[j].text;
        assert t in before[p] && |before[p]| == 1;
        assert |before[p] - {t}| == 0;
        assert Apply(k, letters).word[p] - {t} == {};
      }
    }
  }

  /** A WordleWord: the state the game updates with each guess. */
  class WordleWord {
    var word: seq<set<string>>
    var requiredChars: set<string>

    ghost predicate Valid()
      reads this
    {
      |word| == WordLength
    }

    function Value(): Knowledge
      reads this
    {
      Knowledge(word, requiredChars)
    }

    constructor ()
      ensures Valid() && Value() == Fresh()
    {
      word := seq(WordLength, _ => Alphabet());
      requiredChars := {};
    }

    /** The GRAY rule: discards c from every position set whose size is not 1. */
    method Discard(c: string)
      modifies this
      ensures word == GrayRemove(old(word), c) && requiredChars == old(requiredChars)
    {
      ghost var before := word;
      var j := 0;
      while j < |word|
        invariant 0 <= j <= |word| == |before|
        invariant forall p :: 0 <= p < j ==> word[p] == GrayRemove(before, c)[p]
        invariant forall p :: j <= p < |word| ==> word[p] == before[p]
        invariant requiredChars == old(requiredChars)
      {
        if |word[j]| != 1 {
          word := word[j := word[j] - {c}];
        }
        j := j + 1;
      }
      assert word == GrayRemove(before, c);
    }

    /** Folds one guess into the state, one letter at a time, left to right. */
    method Update(guess: Guess)
      requires Valid() && Fits(guess.letters, WordLength)
      modifies this
      ensures Valid()
      ensures Value() == Apply(old(Value()), guess.letters)
    {
      var idx := 0;
      while idx < |guess.letters|
        invariant 0 <= idx <= |guess.letters|
        invariant Valid()
        invariant Value() == Apply(old(Value()), guess.letters[..idx])
      {
        assert guess.letters[..idx + 1][..idx] == guess.letters[..idx];
        var letter := guess.letters[idx];
        if letter.color == Gray {
          Discard(letter.text);
        } else if letter.color == Yellow {
          word := word[idx := word[idx] - {letter.text}];
          requiredChars := requiredChars + {letter.text};
        } else {
          word := word[idx := {letter.text}];
          requiredChars := requiredChars + {letter.text};
        }
        idx := idx + 1;
      }
      assert guess.letters[..idx] == guess.letters;
    }
  }
}
