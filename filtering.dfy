/** The candidate list of the game and the two tests a word must pass to stay
    in it. */
module Filtering {
  import opened Constraints

  /** Python's `needle in hay` on two strings: needle is a contiguous piece
      of hay (the empty string is a piece of every string). For a one-letter
      needle this is plain membership of its letter. */
  predicate Occurs(needle: string, hay: string)
    ensures Occurs(needle, hay) ==> |needle| <= |hay|
    ensures |needle| == 1 ==> (Occurs(needle, hay) <==> needle[0] in hay)
  {
    assert hay != [] ==> hay == [hay[0]] + hay[1..];
    needle <= hay || (hay != [] && Occurs(needle, hay[1..]))
  }

  /** A set of size one is the set of its element. */
  lemma SingletonSets()
    ensures forall S: set<string>, x :: x in S && |S| == 1 ==> S == {x}
  {
    forall S: set<string>, x | x in S && |S| == 1 ensures S == {x} {
      assert |S - {x}| == 0;
    }
  }

  /** `_has_required_chars`: every required letter occurs in the word. */
  predicate HasRequiredChars(w: string, k: Knowledge)
    ensures HasRequiredChars(w, k) ==> forall r :: r in k.required ==> |r| <= |w|
    ensures (forall r :: r in k.required ==> |r| == 1) ==>
      (HasRequiredChars(w, k) <==> forall r :: r in k.required ==> r[0] in w)
  {
    forall r :: r in k.required ==> Occurs(r, w)
  }

  /** `_has_valid_chars`: the letter at each index is allowed at that index. */
  predicate HasValidChars(w: string, k: Knowledge)
    requires |w| <= |k.word|
    ensures HasValidChars(w, k) ==> forall i :: 0 <= i < |w| && |k.word[i]| == 1 ==> k.word[i] == {[w[i]]}
    ensures HasValidChars(w, k) ==> forall i :: 0 <= i < |w| ==> k.word[i] != {}
  {
    SingletonSets();
    forall i :: 0 <= i < |w| ==> [w[i]] in k.word[i]
  }

  /** The test of the filter's comprehension: both predicates hold. */
  predicate Keeps(w: string, k: Knowledge)
    requires |w| <= |k.word|
  {
    HasRequiredChars(w, k) && HasValidChars(w, k)
  }

  /** Every word is no longer than the number of positions. */
  predicate Indexable(ws: seq<string>, k: Knowledge)
  {
    forall i :: 0 <= i < |ws| ==> |ws[i]| <= |k.word|
  }

  /** The comprehension of `WordleFilter.update`: the words that pass both
      tests, in their original order. */
  function Filter(ws: seq<string>, k: Knowledge): (r: seq<string>)
    requires Indexable(ws, k)
    ensures |r| <= |ws|
    ensures forall w :: w in r ==> w in ws
    ensures Indexable(r, k)
    ensures forall i :: 0 <= i < |r| ==> Keeps(r[i], k)
  {
    if ws == [] then []
    else
      var rest := Filter(ws[1..], k);
      if Keeps(ws[0], k) then [ws[0]] + rest else rest
  }

  /** Every word of the old list that passes both tests survives. */
  lemma {:induction false} FilterComplete(ws: seq<string>, k: Knowledge, w: string)
    requires Indexable(ws, k) && w in ws
    ensures w in Filter(ws, k) <==> Keeps(w, k)
  {
    if w != ws[0] {
      FilterComplete(ws[1..], k, w);
    }
  }

  /** a is obtained from b by deleting elements. */
  predicate IsSubsequence<T(==)>(a: seq<T>, b: seq<T>)
    decreases |b|
  {
    if b == [] then a == []
    else (a != [] && a[0] == b[0] && IsSubsequence(a[1..], b[1..])) || IsSubsequence(a, b[1..])
  }

  /** The filtered list is the old list with some words deleted, order kept. */
  lemma {:induction false} FilterIsSubsequence(ws: seq<string>, k: Knowledge)
    requires Indexable(ws, k)
    ensures IsSubsequence(Filter(ws, k), ws)
  {
    if ws != [] {
      FilterIsSubsequence(ws[1..], k);
    }
  }

  /** Filtering distributes over concatenation of word lists. */
  lemma {:induction false} FilterAppend(a: seq<string>, b: seq<string>, k: Knowledge)
    requires Indexable(a, k) && Indexable(b, k)
    ensures Indexable(a + b, k)
    ensures Filter(a + b, k) == Filter(a, k) + Filter(b, k)
  {
    if a == [] {
      assert a + b == b;
    } else {
      assert (a + b)[1..] == a[1..] + b;
      FilterAppend(a[1..], b, k);
    }
  }

  /** Filtering again with the same knowledge changes nothing. */
  lemma {:induction false} FilterIdempotent(ws: seq<string>, k: Knowledge)
    requires Indexable(ws, k)
    ensures Filter(Filter(ws, k), k) == Filter(ws, k)
  {
    if ws != [] {
      FilterIdempotent(ws[1..], k);
    }
  }

  /** Python's `<` on strings: lexicographic order of code points. */
  predicate Below(a: string, b: string)
  {
    if a == [] then b != []
    else if b == [] then false
    else a[0] < b[0] || (a[0] == b[0] && Below(a[1..], b[1..]))
  }

  /** Sorted and free of duplicates, as `sorted(set(...))` leaves a list. */
  predicate StrictlySorted(ws: seq<string>)
  {
    forall i, j :: 0 <= i < j < |ws| ==> Below(ws[i], ws[j])
  }

  /** The filtered list of a sorted duplicate-free list is sorted and
      duplicate-free. */
  lemma {:induction false} FilterKeepsSorted(ws: seq<string>, k: Knowledge)
    requires Indexable(ws, k) && StrictlySorted(ws)
    ensures StrictlySorted(Filter(ws, k))
  {
    if ws != [] {
      FilterKeepsSorted(ws[1..], k);
      var rest := Filter(ws[1..], k);
      forall j | 0 <= j < |rest| ensures Below(ws[0], rest[j]) {
        assert rest[j] in rest;
        var m :| 0 <= m < |ws[1..]| && ws[1..][m] == rest[j];
        assert ws[1 + m] == rest[j];
      }
    }
  }

  /** A required letter that no position allows rules out every word. */
  lemma RequiredNowhereRejects(w: string, k: Knowledge, r: string)
    requires |w| <= |k.word| && r in k.required && |r| == 1
    requires forall p :: 0 <= p < |k.word| ==> r !in k.word[p]
    ensures !Keeps(w, k)
  {
    if HasRequiredChars(w, k) {
      assert Occurs(r, w);
      var i :| 0 <= i < |w| && w[i] == r[0];
      assert [w[i]] == r;
    }
  }

  /** A required letter that no position allows empties the list. */
  lemma {:induction false} RequiredNowhereEmpties(ws: seq<string>, k: Knowledge, r: string)
    requires Indexable(ws, k) && r in k.required && |r| == 1
    requires forall p :: 0 <= p < |k.word| ==> r !in k.word[p]
    ensures Filter(ws, k) == []
  {
    if ws != [] {
      RequiredNowhereRejects(ws[0], k, r);
      RequiredNowhereEmpties(ws[1..], k, r);
    }
  }

  /** A word of capital letters A to Z. */
  predicate Capitals(w: string)
  {
    forall i :: 0 <= i < |w| ==> 'A' <= w[i] <= 'Z'
  }

  /** Fresh knowledge keeps every capital-letter word: after a reset the
      whole list passes. */
  lemma {:induction false} FreshKeepsAll(ws: seq<string>)
    requires forall i :: 0 <= i < |ws| ==> |ws[i]| <= WordLength && Capitals(ws[i])
    ensures Indexable(ws, Fresh())
    ensures Filter(ws, Fresh()) == ws
  {
    if ws != [] {
      FreshKeepsAll(ws[1..]);
      var w := ws[0];
      forall i | 0 <= i < |w| ensures [w[i]] in Fresh().word[i] {
        AlphabetIsAToZ([w[i]]);
      }
    }
  }

  /** A WordleFilter: the candidate list, narrowed after each guess. */
  class WordleFilter {
    var wordList: seq<string>

    ghost predicate Valid()
      reads this
    {
      StrictlySorted(wordList) && forall i :: 0 <= i < |wordList| ==> |wordList[i]| == WordLength && Capitals(wordList[i])
    }

    /** The list as the loader hands it over: upper-cased, sorted, without
        duplicates. */
    constructor (words: seq<string>)
      requires StrictlySorted(words)
      requires forall i :: 0 <= i < |words| ==> |words[i]| == WordLength && Capitals(words[i])
      ensures Valid() && wordList == words
    {
      wordList := words;
    }

    /** Keeps the words that pass both tests against ww, in order. */
    method Update(ww: WordleWord)
      requires Valid() && ww.Valid()
      modifies this
      ensures Valid()
      ensures ww.Value() == Fresh() ==> wordList == old(wordList)
      ensures wordList == Filter(old(wordList), ww.Value())
      ensures |wordList| <= |old(wordList)|
    {
      FilterKeepsSorted(wordList, ww.Value());
      var kept := Filter(wordList, ww.Value());
      forall i | 0 <= i < |kept| ensures |kept[i]| == WordLength && Capitals(kept[i]) {
        assert kept[i] in kept;
      }
      if ww.Value() == Fresh() {
        FreshKeepsAll(wordList);
      }
      wordList := kept;
    }
  }
}
