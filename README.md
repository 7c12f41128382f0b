# Wordle helper: constraint tracking and candidate filtering

A Dafny model of the core of a Wordle helper (`wordle_helper/wordle_helper.py`).
The player types the colours the game gave to each letter of a guess, for
example `T:C R:G A:G C:C E:Y`. The helper does three things with that line:

- it parses the line into a `Guess`;
- it folds the guess into a `WordleWord`, which holds five per-position sets
  of allowed letters and a set of required letters;
- it narrows the candidate word list (`WordleFilter`) to the words that pass
  both of its tests.

Files:

- `colors.dfy` (module `Colors`): `Color`, the parse table (`C`, `Y`, `G` to
  GRAY, YELLOW, GREEN), the print table, `Letter` and `Guess`.
- `constraints.dfy` (module `Constraints`): the fresh alphabet, the three
  colour rules as a function `Step`, and their left-to-right fold `Apply`.
  The class `WordleWord` changes its `word` and `requiredChars` fields in
  place with loops. Its `Update` is proved to compute `Apply` of its old
  value. The lemmas about `Apply` state what a guess does to the state.
- `filtering.dfy` (module `Filtering`): `_has_required_chars`,
  `_has_valid_chars` and the list comprehension of `WordleFilter.update`
  as `Filter`, with lemmas about `Filter`. The class `WordleFilter`
  reassigns its `wordList` field with `Filter`.
- `parsing.dfy` (module `Parsing`): these Python string operations, written
  out in Dafny: `str.upper()`, `str.split()` and `token.split(":")`.
  `ParseGuess` is the append loop of `parse_guess`.
- `scenarios.dfy` (module `Scenarios`): two whole rounds on concrete words.

Where the code's behaviour may be unexpected, the model keeps it:

- GRAY is modelled as written. It discards the letter from every position
  set whose size is not 1, one set at a time, left to right. The code has no
  rule that a GREEN later in the same guess protects its letter.
  - `GreenPins` shows that a GREEN still always pins its own position: a
    GRAY that comes after it skips the one-element set.
  - `SpeedRoundLosesAnswer` shows the cost of this rule. If a guess marks a
    letter YELLOW and also GRAY (for example SPEED against ABIDE), then from
    a fresh state, or whenever no position set is already exactly that
    letter when the GRAY comes, and no GREEN for that letter follows it in
    the same guess, that letter becomes required but is allowed nowhere.
    Every word is then filtered out, the answer included. A position pinned
    to the letter by an earlier GREEN keeps it, and a later GREEN pins only
    its own position, so words with the letter there can survive.
- `parse_guess` does not check that there are five tokens. It also does not
  check that the text before the colon is one letter. The model keeps both
  gaps. So a letter's text is a `string`, and the position sets and the
  required set are sets of strings.
- `_has_required_chars` tests `letter in word`, which is Python's substring
  test. `Occurs` models that test, and its contract shows it is plain
  membership for one-letter texts.
- A malformed token is a failure (`None`), not a specific exception: a
  missing colon, more than one colon, or a code other than C, Y or G.

## Model

| member | source | states |
|---|---|---|
| Colors.ParseColor | wordle_helper/wordle_helper.py:10-14 | fails exactly on codes other than C, Y, G; each colour comes only from its own code |
| Colors.PrintColor | wordle_helper/wordle_helper.py:16-20 | every colour prints as a known code that parses back to that colour |
| Colors.ParseThenPrint | wordle_helper/wordle_helper.py:10-20 | printing the colour a known code parses to gives the code back |
| Colors.PrintInjective | wordle_helper/wordle_helper.py:16-20 | two colours share a printed code only if they are the same colour |
| Constraints.AlphabetIsAToZ | wordle_helper/wordle_helper.py:38-39 | the set built from the allowed characters holds exactly the one-letter strings A to Z, 26 of them |
| Constraints.Fresh | wordle_helper/wordle_helper.py:37-40 | a fresh state has five position sets, each the full alphabet, and no required letters |
| Constraints.GrayRemove | wordle_helper/wordle_helper.py:45-48 | each set only loses the letter; the letter stays in a set exactly when the set had it and had size 1 |
| Constraints.Step | wordle_helper/wordle_helper.py:43-56 | GREEN makes its position exactly the letter; YELLOW removes the letter from its own position only; both add it to the required set and leave the other positions alone; GRAY and YELLOW never add a letter to any set; GRAY leaves the required set unchanged |
| Constraints.Apply | wordle_helper/wordle_helper.py:42-56 | folding a guess letter by letter keeps five position sets |
| Constraints.RequiredGrows | wordle_helper/wordle_helper.py:42-56 | after a guess, the required set is the old required set plus exactly the guess's YELLOW and GREEN letters, so it only grows |
| Constraints.OnlyGreenWidens | wordle_helper/wordle_helper.py:42-56 | a position that no GREEN letter of the guess names ends up a subset of its old set |
| Constraints.UnnamedLetterStays | wordle_helper/wordle_helper.py:42-56 | a letter the guess never names stays allowed at every position that no GREEN letter pins |
| Constraints.GreenPins | wordle_helper/wordle_helper.py:45-56 | a GREEN letter leaves its position pinned to exactly that letter and required, whatever follows it in the guess |
| Constraints.YellowExcludes | wordle_helper/wordle_helper.py:50-52 | a YELLOW letter ends up banned from its own position and required |
| Constraints.GrayExcludes | wordle_helper/wordle_helper.py:45-48 | after a GRAY letter, that letter is allowed only in a position whose set is exactly that letter |
| Constraints.WordleWord.constructor | wordle_helper/wordle_helper.py:37-40 | the new object's state is the fresh state |
| Constraints.WordleWord.Discard | wordle_helper/wordle_helper.py:46-48 | the loop over the position sets leaves them as GrayRemove says, and the required set untouched |
| Constraints.WordleWord.Update | wordle_helper/wordle_helper.py:42-56 | the new state is the fold of the guess over the old state |
| Filtering.Occurs | wordle_helper/wordle_helper.py:65 | a text occurs in a word only if it is no longer than the word; a one-letter text occurs exactly when its letter is in the word |
| Filtering.HasRequiredChars | wordle_helper/wordle_helper.py:64-66 | a passing word is at least as long as every required text; when every required text is one letter, the word passes exactly when it contains each of those letters |
| Filtering.HasValidChars | wordle_helper/wordle_helper.py:68-70 | a passing word meets no empty position set among its indexes, and at an index whose set has one element it has exactly that letter |
| Filtering.RequiredNowhereRejects | wordle_helper/wordle_helper.py:64-70 | a word fails the two tests when a required one-letter text is allowed at no position |
| Filtering.RequiredNowhereEmpties | wordle_helper/wordle_helper.py:72-74 | a required one-letter text allowed at no position empties the list |
| Filtering.Filter | wordle_helper/wordle_helper.py:64-73 | the result is no longer than the list; every kept word comes from the list and passes both tests |
| Filtering.FilterComplete | wordle_helper/wordle_helper.py:73 | a word of the list is kept if and only if it passes both tests |
| Filtering.FilterIsSubsequence | wordle_helper/wordle_helper.py:73 | the result is the list with some words deleted, in the original order |
| Filtering.FilterAppend | wordle_helper/wordle_helper.py:73 | filtering a concatenation is the concatenation of the filtered parts |
| Filtering.FilterIdempotent | wordle_helper/wordle_helper.py:72-74 | filtering again with the same state changes nothing |
| Filtering.FilterKeepsSorted | wordle_helper/wordle_helper.py:62 | the result of a sorted list without duplicates is sorted and has no duplicates |
| Filtering.FreshKeepsAll | wordle_helper/wordle_helper.py:37-40 | with a fresh state every word of at most five capital letters passes, so the list is unchanged |
| Filtering.WordleFilter.constructor | wordle_helper/wordle_helper.py:60-62 | the filter starts with the loader's upper-cased, sorted list of five-letter words |
| Filtering.WordleFilter.Update | wordle_helper/wordle_helper.py:72-74 | the list becomes the filter of the old list and stays sorted, upper-case and five letters per word; it never gets longer, and a fresh state leaves it unchanged |
| Parsing.Upper | wordle_helper/wordle_helper.py:105 | upper-casing keeps the length, leaves no lower-case ASCII letter, and changes nothing but the case of letters: lower-casing the result and the input gives the same string |
| Parsing.UpperFolds | wordle_helper/wordle_helper.py:105 | a line typed in lower case reads the same as the line in upper case |
| Parsing.Tokens | wordle_helper/wordle_helper.py:105 | every token is non-empty and has no whitespace |
| Parsing.TokensOfWord | wordle_helper/wordle_helper.py:105 | a non-empty text without whitespace is one token, itself |
| Parsing.TokensSplitAtSpace | wordle_helper/wordle_helper.py:105 | a whitespace character splits the line: the tokens of the whole are the tokens before it followed by the tokens after it |
| Parsing.TokensCoverLine | wordle_helper/wordle_helper.py:105 | put back together, the tokens are the line's non-whitespace characters, in order |
| Parsing.SplitColon | wordle_helper/wordle_helper.py:106 | succeeds exactly for a token with one colon, and splits it into the colon-free texts on either side |
| Parsing.ParseToken | wordle_helper/wordle_helper.py:106-107 | a token parses exactly when it has one colon and the text after it is a known code; the parsed letter's text has no colon and its colour prints as that code |
| Parsing.SplitColonJoin | wordle_helper/wordle_helper.py:106 | joining two colon-free texts with a colon and splitting gives them back |
| Parsing.ParseTokenMeaning | wordle_helper/wordle_helper.py:106-107 | a token parses exactly when it has one colon and a known code; the letter prints back as the token |
| Parsing.PrintThenParseToken | wordle_helper/wordle_helper.py:106-107 | a letter printed as `text:code` parses back to the same letter |
| Parsing.ParsedTextIsUpper | wordle_helper/wordle_helper.py:105-107 | the text of every parsed letter has no lower-case ASCII letter |
| Parsing.ParseGuess | wordle_helper/wordle_helper.py:97-108 | succeeds exactly when every token parses; then it has one letter per token, in token order |
| Scenarios.TraceRound | wordle_helper/wordle_helper.py:42-74 | the feedback `T:C R:G A:G C:C E:Y` requires R, A, E; of BRAES, CRANE, SLATE, TRACE only BRAES survives |
| Scenarios.SpeedRoundLosesAnswer | wordle_helper/wordle_helper.py:45-52 | from a fresh state, the SPEED feedback `S:C P:C E:Y E:C D:Y` marks E both YELLOW and GRAY, and then no word of five letters or fewer survives the filter |

## Left out

- Reading the word lists and the logo from files (`data/*.txt`) is not modelled. `WordleFilter` takes its list as a parameter, already upper-cased, sorted and free of duplicates, as `sorted(set(...))` would leave it.
- Console output is not modelled: `_print_columns`, `_print_logo`, the `_print_width` field and the formatting of `Guess.__str__`. Only the code round trip of the print table is kept.
- `Letter.__str__` is not modelled: it reads an attribute that does not exist, so it can only raise.
- The interactive loop `Game.run` is not modelled: `input()`, the `"ng"` check, `reset` (which re-enters `run`), the start-word list and the module-level game instance.
- Python's exception types are not modelled: a failed parse is `None`.
- `Parsing.Upper`: only ASCII `a` to `z` are upper-cased. Python's full Unicode `str.upper()` is not modelled, including mappings that change a string's length such as `ß` to `SS`.
- `Constraints.WordleWord.Update`: requires every YELLOW or GREEN letter to be at an index below five. The source raises `IndexError` there after the earlier letters have already been applied, and that partial update is not modelled.
- `Filtering.Filter`: requires every word to be at most five characters long. The source indexes the position sets only while `all(...)` and `and` have not already stopped on a failing test, so a longer word does not always raise there.
- `Filtering.WordleFilter.constructor`: requires a sorted list of five-letter words of capitals A to Z with no duplicates. The upper-casing, sorting and de-duplication of the loader are not modelled.
- The colours' numeric values (0, 1, 2) are not modelled, because nothing in the core uses them.
