# Wordlist generator, modelled in Dafny

The program turns a few pieces of personal information (names, years, pet
names) into a list of candidate passwords. `generate_wordlist` grows a set
of candidates in five fixed stages:

1. every piece with its lower-case, capitalized, upper-case and title-case
   forms;
2. every candidate so far with each of fifty suffixes attached;
3. every piece doubled;
4. every ordered pair of pieces joined bare and by `.`, `-`, `_` or a space,
   each together with its lower-cased form;
5. every candidate so far with each of ten prefixes attached.

Stages 2, 4 and 5 keep a new candidate only when its length is between 6
and 20; stages 1 and 3 keep everything. From stage 2 on, the size of the set
is checked against `max_words`: after every affix attempt in stages 2 and 5,
after every piece in stage 3 and after every pair in stage 4. As soon as the
set has reached `max_words`, the function returns. Returning means sorting
the set and cutting it to its first `max_words` entries, and the function
returns the same way after stage 5. When the caller gives no cap,
`max_words` is 14000 (`Wordlist.DefaultMaxWords`). The pieces come from a file:
`read_pieces_from_file` turns commas into line breaks, splits the text into
lines, strips each line and drops the blank ones.

The Dafny modules follow that structure:

- `Casing`: ASCII `str.lower`, `str.upper`, `str.capitalize` and
  `str.title`.
- `Ordering`: Python's string order, `sorted` on a set, and the slice
  `[:k]`.
- `Unions`: the union of `f(x)` over a sequence, which is what a loop adding
  `f(x)` for each `x` builds.
- `Pieces`: the cleaning rule of `read_pieces_from_file`, given the text of
  the file.
- `Wordlist`: the five stages and `generate_wordlist`.

Each stage is specified twice:

- as an order-free set, for example `Affixed(S, Suffixes, After)` or
  `Pairs(pieces)`;
- as a method with the source's loops and cap checks, proved against that
  set. It states what the set is when the stage runs to its end. When the
  stage stops early, it states where it stopped and exactly which set that
  leaves: the items before the stopping point were added, the cap was
  reached right after it, and the check before it was still below the cap
  (`StoppedAfter` for stages 3 and 4, `StoppedInRow` for stages 2 and 5).
  That stopping point is unique (`StoppedAfterUnique`,
  `StoppedInRowUnique`).

Stages 2 and 5 walk `list(words)`, whose order is CPython's hash order.
The model leaves that order open: `Snapshot` lists the set in an arbitrary
order, and the stage methods return that listing as a ghost value.
Every contract therefore holds for every iteration order. Once the order
is fixed, the collected set is fixed too. Stages 3 and 4 walk the pieces and
`itertools.product`, whose order is known, so there the collected set is
fixed outright.

Some behaviour of the code is worth knowing; the model follows it:

- **The cap can be exceeded before the cut.** At a cap check the set can
  hold more than `max_words` candidates:
  - stage 1 has no check at all;
  - stage 3 adds up to three words per piece before its check, so it can
    end at most two words past the cap;
  - stage 4 adds up to ten words per pair before its check, so it can end
    at most nine words past the cap.

  The returned list never exceeds `max_words`, because of the final cut.
- **The first cap check comes late.** It happens only after the first
  suffix attempt of stage 2, even when stage 1 alone reached the cap.
- **`str.title` starts a new word after any non-letter.** A "word" starts
  after any character that is not cased, not only after white space: for
  example "o'neil" becomes "O'Neil". `Casing.Title` follows this rule.
- **The pieces `["Anna", "1990"]` with a cap of 50 never reach stage 4.**
  Counting the suffix list by hand: 35 of the suffixes are long enough for
  each of the four stage-1 words "Anna", "anna", "ANNA" and "1990", so the
  complete stage-2 set is far above 50. `CollectCandidates` states that
  stage 3 is reached only when the complete stage-2 set is below the cap,
  and that a run stopping in stage 2 collects only stage-2 candidates.
  None of these has a `.`, so "Anna.1990" is not in the list. The count and
  the absence of `.` come from reading the suffix list; no lemma states
  them.
- **Callers are not restricted.** `generate_wordlist` accepts an empty list
  of pieces and any integer `max_words`, including zero and negative
  values, which Python's slice counts from the end. The model accepts the
  same inputs.

## Model

| member | source | states |
|---|---|---|
| Wordlist.GenerateWordlist | main.py:51-121 | The result is the collected set sorted and cut to max_words. That set holds every stage-1 candidate and lies within the union of all five stages; it is that union unless it reached max_words. On an early return it is exactly the set at the stopping point (as for CollectCandidates). The result is strictly ascending and drawn from that union. Every entry passes the length filter or comes from stage 1 or 3. For max_words >= 0 the result has exactly as many entries as the smaller of max_words and the size of the union, exactly max_words on an early return, and every kept entry sorts before every dropped candidate |
| Wordlist.CollectCandidates | main.py:51-119 | Records the stage at whose cap check the run stopped, or 6 when all five stages ran. For each stopping stage it gives the exact set: stage 2 stopped after attempt j of row i over a listing of the stage-1 set; stage 3 after the j-th piece; stage 4 after the j-th pair of the product; stage 5 after attempt j of row i over a listing of the set after stage 4. Each time the cap was reached right then and not at the check before. An early return in stage 2 or 5 leaves exactly max_words candidates (when stage 1 left fewer); one in stage 3 or 4 leaves fewer than max_words + 3 or max_words + 10. For non-empty pieces, a stage is reached only when the stages before it, run to their end, left fewer than max_words candidates |
| Wordlist.LaterStages | main.py:82-119 | Stages 3 to 5, entered with the complete stage-2 set, which for non-empty pieces is below the cap, with the same per-stage results as CollectCandidates |
| Wordlist.CaseStage | main.py:55-60 | The set after stage 1 is each piece with its lower, capitalized, upper and title forms, with no filter |
| Wordlist.Variants | main.py:56-60 | The five forms stage 1 adds for a piece: the piece and its lower, capitalized, upper and title forms |
| Wordlist.CaseSet | main.py:55-60 | Stage 1 as a set: every form of every piece |
| Wordlist.Affixed | main.py:74-78 | Stages 2 and 5 as a set: every word of the set with every affix attached before or after, kept when the result has 6 to 20 characters |
| Wordlist.Doubles | main.py:83-88 | Stage 3 as a set: p + p, its lower-case form and Capitalize(p) + Capitalize(p) for every piece p |
| Wordlist.Joined | main.py:93-105 | The joins of stage 4: every ordered pair of pieces joined bare or by `.`, `-`, `_` or a space, kept when the join has 6 to 20 characters |
| Wordlist.Pairs | main.py:93-105 | Stage 4 as a set: Joined(pieces) together with the lower-cased form of each |
| Wordlist.AfterSuffixes | main.py:55-80 | The set after stages 1 and 2 run to their end: the stage-1 set with Affixed of it for the fifty suffixes |
| Wordlist.AfterDoubles | main.py:55-90 | The set after stages 1 to 3 run to their end: AfterSuffixes with the doubles of every piece |
| Wordlist.AfterPairs | main.py:55-108 | The set after stages 1 to 4 run to their end: AfterDoubles with Pairs(pieces) |
| Wordlist.Row | main.py:75-78 | The words the inner affix loop adds for one word: each affix attached, kept at lengths 6 to 20 |
| Wordlist.Rows | main.py:74-78 | The union of the rows of every word of a listing: what the outer affix loop adds over that listing |
| Wordlist.DoubleForms | main.py:84-88 | The three doubles of one piece: p + p, its lower-case form and Capitalize(p) + Capitalize(p) |
| Wordlist.JoinedForms | main.py:95-105 | For one pair (a, b): a + j + b for each joint j, each kept with its lower-cased form when it has 6 to 20 characters |
| Wordlist.Universe | main.py:55-119 | The union of all five stages, each working on the complete result of the stages before it |
| Wordlist.Snapshot | main.py:73 | `list(words)` lists each element of the set exactly once, in some order |
| Wordlist.TryAffix | main.py:76-78 | One affix attempt adds the affixed word exactly when it passes the length filter, so at most one word |
| Wordlist.AffixAttempt | main.py:76-80 | One attempt with the cap check after it extends the set by that attempt's word; the loop returns exactly when the set has reached max_words, and then it stopped right after this attempt |
| Wordlist.AffixWord | main.py:75-80 | The inner loop over the affixes adds part of the word's row of affixed words, and all of it unless the cap was reached. On an early return it stopped after attempt n: the first n attempts were added, the cap was reached then, and not at attempt n - 1. It then holds exactly max_words words when it started below the cap; otherwise it is below the cap |
| Wordlist.AffixRow | main.py:74-80 | One word of the listing: the inner loop started from the rows before it either completes the row below the cap or stops inside this row |
| Wordlist.AffixRows | main.py:74-80 | The outer loop over a listing adds the rows of the listed words, and all of them unless it returned at the cap, in which case it stopped after attempt j of row i |
| Wordlist.AffixStage | main.py:73-80 | The loop over a listing of the set (returned as a ghost value) adds only affixed words of the starting set, and all of them unless it returned at the cap. Words added on the way are not expanded again. An early return leaves exactly the set at its stopping point, exactly max_words words when the start was below the cap; a complete run leaves fewer than max_words |
| Wordlist.SuffixStage | main.py:62-80 | Stage 2 is the affix loop with the fifty suffixes attached after the word |
| Wordlist.PrefixStage | main.py:111-119 | Stage 5 is the affix loop with the ten prefixes attached before the word |
| Wordlist.StoppedInRowUnique | main.py:73-80 | Over a given listing, stage 2 or 5 can stop at only one attempt, so the collected set depends only on the listing |
| Wordlist.StoppedAfterUnique | main.py:83-108 | A loop that checks the cap after each item can stop at only one item, so stages 3 and 4 collect one determined set |
| Wordlist.RowsAreAffixed | main.py:74-78 | The rows of affixed words over a listing of a set together equal Affixed of that set, whatever the order of the listing |
| Wordlist.AddDoubles | main.py:84-88 | One piece contributes p + p, its lower-case form and Capitalize(p) + Capitalize(p), at most three words, with no filter |
| Wordlist.DoubleStep | main.py:83-90 | One piece with the cap check after it extends the set by that piece's doubles; the loop returns exactly when the set has reached max_words, and then it stopped right after this piece |
| Wordlist.DoubleStage | main.py:83-90 | Stage 3 adds only the doubles of the pieces, and all of them unless it returned at the cap. On an early return it stopped after piece n, with the doubles of the first n pieces added. It then ends fewer than three words past the cap when it started below it |
| Wordlist.TryJoin | main.py:96-98 | A joined pair and its lower-cased form are added exactly when the joined pair passes the length filter |
| Wordlist.JoinAll | main.py:95-105 | Joining a pair at each joint in turn adds exactly the kept joined forms, at most two words per joint |
| Wordlist.JoinPair | main.py:94-105 | One pair adds its bare and separated joins with their lower-cased forms, at most ten words |
| Wordlist.JoinedFormsMember | main.py:95-105 | A word is among the joined forms of (a, b) exactly when it is a kept join of a and b at one of the joints, or its lower-cased form |
| Wordlist.PairStep | main.py:93-108 | One pair with the cap check after it extends the set by that pair's joined forms; the loop returns exactly when the set has reached max_words, and then it stopped right after this pair |
| Wordlist.PairLoop | main.py:93-108 | The loop over the listed pairs adds only their joined forms, and all of them unless it returned at the cap. On an early return it stopped after pair n, with the first n pairs added. It then ends fewer than ten words past the cap when it started below it |
| Wordlist.PairStage | main.py:93-108 | Stage 4 over `itertools.product(pieces, repeat=2)` adds only Pairs(pieces), and all of it unless it returned at the cap, in which case it stopped after the n-th pair of the product |
| Wordlist.Product | main.py:93 | `itertools.product(pieces, repeat=2)` has one pair for each choice of first and second piece |
| Wordlist.ProductOrder | main.py:93 | The product lists the pairs in row order: entry i * n + j is (pieces[i], pieces[j]) |
| Wordlist.ProductMember | main.py:93 | The product lists a pair exactly when both of its components are pieces |
| Wordlist.ProductIsPairs | main.py:93-105 | The loop over the product builds exactly Pairs(pieces): every ordered pair, a piece paired with itself included, joined bare and by each separator, with lower-cased forms |
| Wordlist.SortAndCut | main.py:121 | The returned list is `sorted(words)[:max_words]` |
| Wordlist.UniverseFiltered | main.py:55-119 | A candidate outside the length filter can only come from stage 1 or stage 3 |
| Wordlist.ExemptStages | main.py:55-90 | Every stage-1 and stage-3 candidate is in the union of all stages, whatever its length |
| Wordlist.UnfilteredLengths | main.py:55-88 | When all pieces have length n, stage 1 gives words of length n and stage 3 words of length 2n |
| Wordlist.ShortPieceExample | main.py:55-88 | For the piece "ab", the candidates include "ab", "AB" and "abab", although all are shorter than six characters. "ab1" is not a candidate; "ab123456" is |
| Wordlist.SnapshotExample | main.py:73-78 | Stage 2 on "abcde" gives "abcde1" but not "abcde1!": a suffixed word is not suffixed again |
| Wordlist.PairsExample | main.py:93-105 | Stage 4 on ["Abc", "def"] gives both orders, "def.Abc" and "Abc-def", and the lower-cased "abc-def" |
| Ordering.Less | main.py:121 | Python's `<` on str: code points compared left to right, a proper prefix first |
| Ordering.LessIsLexicographic | main.py:121 | Less holds exactly when a is a proper prefix of b, or the two first differ at a position where a has the smaller character |
| Ordering.LessTransitive | main.py:121 | Python's string order is transitive |
| Ordering.LessTotal | main.py:121 | Any two different strings are ordered one way or the other |
| Ordering.AscendingUnique | main.py:121 | Two strictly ascending lists with the same elements are equal, so `sorted` on a set has only one possible result |
| Ordering.SortedOf | main.py:121 | `sorted` of a set is strictly ascending, as long as the set, and holds exactly the elements of the set |
| Ordering.Sort | main.py:121 | `sorted` of a set is the unique strictly ascending list of its elements |
| Ordering.PyTake | main.py:121 | `s[:k]` is a prefix of s with the first k entries (all of s when k is larger) for k >= 0, and all but the last -k entries (none when -k is larger) for k < 0 |
| Ordering.SortedTake | main.py:121 | The sorted set cut to k entries is strictly ascending and drawn from the set. For k >= 0 it has the smaller of k and the size of the set as length, and each entry sorts before every element left out |
| Casing.Lower | main.py:57 | `str.lower` keeps the length and lower-cases each letter |
| Casing.Upper | main.py:59 | `str.upper` keeps the length and upper-cases each letter |
| Casing.Capitalize | main.py:58 | `str.capitalize` upper-cases the first character and lower-cases the rest |
| Casing.Title | main.py:60 | ASCII `str.title` keeps the length, upper-cases the first character, and after it lower-cases a character that follows a letter and upper-cases one that follows a non-letter |
| Casing.TitleAfter | main.py:60 | `str.title` upper-cases a letter that follows a non-letter (or starts the string) and lower-cases a letter that follows a letter |
| Pieces.IsSpace | main.py:12 | The white space `str.strip` removes, in the sense of `str.isspace` |
| Pieces.IsLineBreak | main.py:10 | The characters at which `str.splitlines` breaks a line |
| Pieces.ReplaceCommas | main.py:10 | `replace(',', '\n')` turns every comma into a line feed and leaves every other character alone |
| Pieces.Lines | main.py:10 | The text cut at every line boundary, CR LF counting as one, giving at least one (possibly empty) line |
| Pieces.SplitLines | main.py:10 | `splitlines()` gives the lines of the text in order, each free of line boundaries; it has one line fewer than the cut at every boundary exactly when that cut ends with an empty line, and the same number otherwise |
| Pieces.LinesRoundTrip | main.py:10 | Cutting at the line boundaries (CR LF being one boundary) loses nothing: the lines with the boundaries between them rebuild the text |
| Pieces.SplitLinesDropsFinalEmpty | main.py:10 | `splitlines()` agrees with the cut at every boundary line by line, and is one line shorter exactly when that cut ends with an empty line |
| Pieces.StripLeft | main.py:12 | Removes exactly the leading white space, in the sense of `str.isspace` |
| Pieces.StripRight | main.py:12 | Removes exactly the trailing white space |
| Pieces.Strip | main.py:12 | The stripped item is a contiguous part of the item with only white space around it, and it has no white space at either end; so it is exactly the item without its leading and trailing white space |
| Pieces.StripTrims | main.py:12 | Stripping the left and then the right end leaves the part of the item that starts after the leading white space, with only white space after it |
| Pieces.CleanPieces | main.py:10-14 | The pieces read from the text: commas turned into line breaks, the lines split, stripped, and the blank ones dropped |
| Pieces.CleanPiecesWellFormed | main.py:10-14 | Every piece read is non-empty, has no white space at either end, and holds no comma and no line boundary |
| Pieces.CleanPiecesComplete | main.py:10-14 | Every line that is not blank after stripping yields a piece |
| Pieces.ReadPieces | main.py:10-14 | The loop appends the stripped, non-blank items in order, and each of them is well formed |

## Left out

- Opening and reading the file (main.py:7-9), the FileNotFoundError message and `sys.exit(1)` (main.py:15-17): file I/O. `Pieces.ReadPieces` takes the text of the file instead.
- The universal-newline translation of text-mode `open`: it turns CR LF and CR into LF, boundaries that `splitlines` already treats as one, so the pieces are the same.
- `read_pieces_interactive` (main.py:21-32) and `ask_max_words` (main.py:35-48): console input. The model takes the pieces and the cap as parameters.
- `main`: command-line handling, printing, writing the list to a file and the KeyboardInterrupt handler, all I/O.
- Casing.Title, Casing.Lower, Casing.Upper, Casing.Capitalize, Casing.TitleAfter: only ASCII letters are cased, so for example `"éa".title()` is "Éa" in Python but "éA" in the model, and `'ß'.title()` is "Ss" in Python but "ß" in the model. Python's full Unicode case mappings, which can also change the length of a string, are not modelled.
- Wordlist.GenerateWordlist: when the cap is hit in the middle of stage 2 or 5, the set returned depends on CPython's hash order of strings, which `list(words)` follows. CPython salts `str` hashes per process (`PYTHONHASHSEED`), so two runs on the same input that stop early in stage 2 or 5 can return different lists. The model leaves that order open (`Wordlist.Snapshot` chooses one arbitrarily) and names the collected set in terms of the chosen listing; it does not model the hash function. Stages 3 and 4 do not depend on it.
