/** `Game.parse_guess`: a feedback line such as "I:C R:Y A:G T:C E:Y" becomes
    a Guess, one Letter per whitespace-separated token. */
module Parsing {
  import opened Colors

  /** The characters Python's `str.split()` treats as whitespace. */
  predicate IsSpace(c: char)
  {
    var n := c as int;
    9 <= n <= 13 || 28 <= n <= 32 || 8192 <= n <= 8202
    || n in {133, 160, 5760, 8232, 8233, 8239, 8287, 12288}
  }

  /** `str.upper()` on ASCII: a to z become A to Z, every other character stays. */
  function UpperChar(c: char): char
  {
    if 'a' <= c <= 'z' then (c as int - 'a' as int + 'A' as int) as char else c
  }

  /** `str.upper()` on ASCII: UpperChar applied to every character of s. */
  function Upper(s: string): (r: string)
    ensures |r| == |s|
    ensures forall i :: 0 <= i < |s| ==> !('a' <= r[i] <= 'z')
    ensures Lower(r) == Lower(s)
  {
    seq(|s|, i requires 0 <= i < |s| => UpperChar(s[i]))
  }

  /** An ASCII capital A to Z as its lower-case letter; any other character
      unchanged. */
  function LowerChar(c: char): char
  {
    if 'A' <= c <= 'Z' then (c as int - 'A' as int + 'a' as int) as char else c
  }

  /** LowerChar applied to every character of s. */
  function Lower(s: string): string
  {
    seq(|s|, i requires 0 <= i < |s| => LowerChar(s[i]))
  }

  /** Upper-casing is idempotent, and a line typed in lower case reads the same
      as the line typed in upper case. */
  lemma UpperFolds(s: string)
    ensures Upper(Upper(s)) == Upper(s)
    ensures Upper(Lower(s)) == Upper(s)
  {
  }

  /** The number of characters before the first whitespace character. */
  function RunLength(s: string): (n: nat)
    ensures n <= |s|
    ensures forall i :: 0 <= i < n ==> !IsSpace(s[i])
    ensures n < |s| ==> IsSpace(s[n])
  {
    if s == [] || IsSpace(s[0]) then 0 else 1 + RunLength(s[1..])
  }

  /** `str.split()` with no separator: the maximal runs of non-whitespace. */
  function Tokens(s: string): (ts: seq<string>)
    ensures forall i :: 0 <= i < |ts| ==> ts[i] != [] && forall j :: 0 <= j < |ts[i]| ==> !IsSpace(ts[i][j])
    decreases |s|
  {
    if s == [] then []
    else if IsSpace(s[0]) then Tokens(s[1..])
    else
      var n := RunLength(s);
      [s[..n]] + Tokens(s[n..])
  }

  /** A line with no whitespace at all is one token. */
  lemma TokensOfWord(s: string)
    requires s != [] && forall i :: 0 <= i < |s| ==> !IsSpace(s[i])
    ensures Tokens(s) == [s]
  {
    assert !IsSpace(s[0]) && RunLength(s) == |s|;
    assert s[..|s|] == s && s[|s|..] == [];
    assert Tokens(s[|s|..]) == [];
  }

  /** A whitespace character followed by more text never lies inside a run. */
  lemma {:induction false} RunStopsAtSpace(a: string, c: char, b: string)
    requires IsSpace(c)
    ensures RunLength(a + [c] + b) == RunLength(a)
    decreases |a|
  {
    if a == [] {
      assert (a + [c] + b)[0] == c;
    } else {
      assert (a + [c] + b)[0] == a[0];
      assert (a + [c] + b)[1..] == a[1..] + [c] + b;
      if !IsSpace(a[0]) {
        RunStopsAtSpace(a[1..], c, b);
      }
    }
  }

  /** A token ends at every whitespace character: the tokens of a line cut
      at a whitespace character are the tokens of the two sides. */
  lemma {:induction false} TokensSplitAtSpace(a: string, c: char, b: string)
    requires IsSpace(c)
    ensures Tokens(a + [c] + b) == Tokens(a) + Tokens(b)
    decreases |a|
  {
    var s := a + [c] + b;
    if a == [] {
      assert s[0] == c && s[1..] == b;
    } else if IsSpace(a[0]) {
      assert s[0] == a[0] && s[1..] == a[1..] + [c] + b;
      TokensSplitAtSpace(a[1..], c, b);
    } else {
      assert s[0] == a[0];
      RunStopsAtSpace(a, c, b);
      var m := RunLength(a);
      assert s[..m] == a[..m];
      assert s[m..] == a[m..] + [c] + b;
      TokensSplitAtSpace(a[m..], c, b);
    }
  }

  /** The characters of s that are not whitespace, in order. */
  function Visible(s: string): string
  {
    if s == [] then [] else (if IsSpace(s[0]) then [] else [s[0]]) + Visible(s[1..])
  }

  /** The texts of ts joined end to end, with nothing in between. */
  function Concat(ts: seq<string>): string
  {
    if ts == [] then [] else ts[0] + Concat(ts[1..])
  }

  /** Dropping whitespace distributes over concatenation. */
  lemma {:induction false} VisibleAppend(a: string, b: string)
    ensures Visible(a + b) == Visible(a) + Visible(b)
  {
    if a != [] {
      assert (a + b)[0] == a[0];
      assert (a + b)[1..] == a[1..] + b;
      VisibleAppend(a[1..], b);
      var head := if IsSpace(a[0]) then [] else [a[0]];
      assert Visible(a + b) == head + (Visible(a[1..]) + Visible(b));
      assert Visible(a) == head + Visible(a[1..]);
    } else {
      assert a + b == b;
    }
  }

  /** A text without whitespace keeps all its characters. */
  lemma {:induction false} VisibleOfWord(s: string)
    requires forall i :: 0 <= i < |s| ==> !IsSpace(s[i])
    ensures Visible(s) == s
  {
    if s != [] {
      VisibleOfWord(s[1..]);
    }
  }

  /** Splitting loses nothing but whitespace: the tokens, put together, are
      the visible characters of the line. */
  lemma {:induction false} TokensCoverLine(s: string)
    ensures Concat(Tokens(s)) == Visible(s)
    decreases |s|
  {
    if s != [] {
      if IsSpace(s[0]) {
        TokensCoverLine(s[1..]);
      } else {
        var n := RunLength(s);
        TokensCoverLine(s[n..]);
        assert s == s[..n] + s[n..];
        VisibleAppend(s[..n], s[n..]);
        VisibleOfWord(s[..n]);
        assert Tokens(s)[1..] == Tokens(s[n..]);
      }
    }
  }

  /** The number of colons in a token. */
  function Colons(s: string): nat
  {
    multiset(s)[':']
  }

  /** The index of the first colon of a token that has one. */
  function ColonAt(s: string): (i: nat)
    requires ':' in s
    ensures i < |s| && s[i] == ':' && ':' !in s[..i]
  {
    if s[0] == ':' then 0 else 1 + ColonAt(s[1..])
  }

  /** `letter, color_str = token.split(":")`: succeeds exactly when the token
      holds one colon, and then yields the text on either side of it. */
  function SplitColon(tok: string): (r: Option<(string, string)>)
    ensures r.Some? <==> Colons(tok) == 1
    ensures r.Some? ==> tok == r.value.0 + ":" + r.value.1 && ':' !in r.value.0 && ':' !in r.value.1
  {
    if Colons(tok) != 1 then None
    else
      var i := ColonAt(tok);
      assert tok == tok[..i] + [':'] + tok[i + 1..];
      assert multiset(tok) == multiset(tok[..i]) + multiset{':'} + multiset(tok[i + 1..]);
      Some((tok[..i], tok[i + 1..]))
  }

  /** Joining two colon-free texts with a colon and splitting the token again
      gives the two texts back. */
  lemma SplitColonJoin(a: string, b: string)
    requires ':' !in a && ':' !in b
    ensures SplitColon(a + ":" + b) == Some((a, b))
  {
    var tok := a + ":" + b;
    assert multiset(tok) == multiset(a) + multiset{':'} + multiset(b);
    var i := ColonAt(tok);
    assert tok[..i] == a && tok[i + 1..] == b;
  }

  /** One token: the text before the colon and the colour its code parses to. */
  function ParseToken(tok: string): (r: Option<Letter>)
    ensures r.Some? <==> Colons(tok) == 1 && SplitColon(tok).value.1 in Codes
    ensures r.Some? ==> ':' !in r.value.text && PrintColor(r.value.color) == SplitColon(tok).value.1
  {
    match SplitColon(tok)
    case None => None
    case Some((text, code)) =>
      match ParseColor(code)
      case None => None
      case Some(c) => Some(Letter(text, c))
  }

  /** A token parses exactly when it has one colon and a known code after
      it; the letter it yields prints back as the same token. */
  lemma ParseTokenMeaning(tok: string)
    ensures ParseToken(tok).Some? <==> Colons(tok) == 1 && SplitColon(tok).value.1 in Codes
    ensures ParseToken(tok).Some? ==>
      var l := ParseToken(tok).value;
      tok == l.text + ":" + PrintColor(l.color) && ':' !in l.text
  {
  }

  /** Printing a letter as a token and parsing it gives the letter back. */
  lemma PrintThenParseToken(l: Letter)
    requires ':' !in l.text
    ensures ParseToken(l.text + ":" + PrintColor(l.color)) == Some(l)
  {
    SplitColonJoin(l.text, PrintColor(l.color));
  }

  /** No character of s is a lower-case ASCII letter. */
  predicate NoLower(s: string)
  {
    forall i :: 0 <= i < |s| ==> !('a' <= s[i] <= 'z')
  }

  /** Splitting a text without lower-case ASCII letters gives tokens without
      them. */
  lemma {:induction false} TokensNoLower(s: string)
    requires NoLower(s)
    ensures forall i :: 0 <= i < |Tokens(s)| ==> NoLower(Tokens(s)[i])
    decreases |s|
  {
    if s != [] {
      if IsSpace(s[0]) {
        TokensNoLower(s[1..]);
      } else {
        TokensNoLower(s[RunLength(s)..]);
      }
    }
  }

  /** The letter text of every token of a line parses upper-cased. */
  lemma ParsedTextIsUpper(line: string, j: nat)
    requires j < |Tokens(Upper(line))| && ParseToken(Tokens(Upper(line))[j]).Some?
    ensures NoLower(ParseToken(Tokens(Upper(line))[j]).value.text)
  {
    var tok := Tokens(Upper(line))[j];
    TokensNoLower(Upper(line));
    ParseTokenMeaning(tok);
    var l := ParseToken(tok).value;
    assert tok[..|l.text|] == l.text;
  }

  /** `parse_guess`: upper-cases the line, splits it on whitespace and parses
      each token in turn; the first token that does not parse fails the line. */
  method ParseGuess(line: string) returns (r: Option<Guess>)
    ensures r.Some? <==> forall j :: 0 <= j < |Tokens(Upper(line))| ==> ParseToken(Tokens(Upper(line))[j]).Some?
    ensures r.Some? ==> |r.value.letters| == |Tokens(Upper(line))|
    ensures r.Some? ==> forall j :: 0 <= j < |r.value.letters| ==> ParseToken(Tokens(Upper(line))[j]) == Some(r.value.letters[j])
  {
    var tokens := Tokens(Upper(line));
    var letters: seq<Letter> := [];
    var i := 0;
    while i < |tokens|
      invariant 0 <= i <= |tokens| && |letters| == i
      invariant forall j :: 0 <= j < i ==> ParseToken(tokens[j]) == Some(letters[j])
    {
      var l := ParseToken(tokens[i]);
      if l.None? {
        return None;
      }
      letters := letters + [l.value];
      i := i + 1;
    }
    return Some(Guess(letters));
  }
}
