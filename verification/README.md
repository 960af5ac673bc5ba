# SAR_Indexer: indexing and Boolean query evaluation

This project models the core of `SAR_Indexer`, the inverted-index search engine in `SAR_lib.py`, and proves properties of it. It covers:

- the tokenizer;
- the loop of `index_file` that turns the records of a crawled file into articles and postings;
- term and phrase lookup (`get_posting`, `get_positionals`);
- the posting-list algebra (`and_posting`, `or_posting`, `reverse_posting`);
- the two-pass query evaluator `solve_query`.

The modules follow the pieces of the class:

- `Seqs` (seqs.dfy): small generic facts about sequence slicing and concatenation.
- `Postings` (postings.dfy): posting lists are `seq<nat>`.
  - `Intersect`, `Union` and `Complement` are recursive definitions of `and_posting`, `or_posting` and `reverse_posting`, step for step.
  - `AndPosting` and `OrPosting` are the two-pointer loops of the source, proved to compute them.
  - The independent reference is the set reading: `IntersectExact`, `Union`'s membership clause and `Complement`'s say which ids each result holds.
- `Tokenizer` (tokenizer.dfy): `tokenize` is lower-casing, then `\W+` replaced by one space, then `str.split()`.
  - The Unicode tables behind `\w` and `str.lower()` are a parameter `Alphabet`.
  - `Ascii` is one concrete instance, used for worked examples.
- `Index` (index.dfy): the indexer state, modelled as follows.
  - `urls` is a set and the inverted index is a map.
  - Each term's article dictionary is an `Entry`: its keys in insertion order, plus a map to the position lists.
  - `docs` and `articles` are sequences, since their keys are dense.
  - The invariant `Reflects(st, texts)` says the index describes exactly the token streams `texts`, one per article.
  - `index_file` is proved to keep it: each new record appends its token stream.
- `Query` (query.dfy), modelling `solve_query`:
  - Pass 1 is `Group`: it turns the words into operators and maximal operand runs. `Items` then resolves each run.
  - Pass 2 is `Reduce`, the left-to-right fold.
  - The accumulator `solve` is a `Value`: a list of article ids, or a list of one-character strings. The second kind arises because an operator name read where a posting is expected is a Python string, and `or_posting([], "AND")` returns `['A', 'N', 'D']`. Later clauses keep working on such a list just as Python does.
  - A query ends without a posting in one of three ways. `MissingOperand` is the `IndexError` of reading past the end of the list. `Incomparable` is the `TypeError` of comparing an id with a character, or of `reverse_posting` testing an id for membership in an operator name. `CharacterList` means a list of characters is returned as the answer.
  - `SolveQueryMeaning` is the end-to-end theorem. On a well-shaped query over a consistent index, the answer is ascending. An article is in it iff the article satisfies the query read left to right. An operand is satisfied when its words occur consecutively in the article's tokens.

## Model

| member | source | states |
|---|---|---|
| Postings.Intersect | SAR_lib.py:611-626 | the source's two-pointer loop, step for step: no longer than either input, and only elements of both |
| Postings.IntersectExact | SAR_lib.py:611-626 | on strictly ascending inputs the intersection is strictly ascending and holds exactly the elements in both |
| Postings.AndPosting | SAR_lib.py:609-626 | the two-pointer loop computes `Intersect`, at most min(len(p1), len(p2)) long; on ascending inputs ascending with exactly the common elements |
| Postings.Union | SAR_lib.py:640-663 | the source's two-pointer loop, step for step: at most len(p1) + len(p2) long, holding exactly the elements of either input |
| Postings.UnionIncreasing | SAR_lib.py:640-663 | on strictly ascending inputs the union is strictly ascending, so it has no duplicates |
| Postings.UnionAppendsTail | SAR_lib.py:657-661 | elements of one list beyond all of the other's are appended unchanged after the merged part |
| Postings.MergeBoth | SAR_lib.py:645-655 | the merge loop stops with one list exhausted, and what it emitted followed by the union of the leftovers is the whole union |
| Postings.AppendFrom | SAR_lib.py:657-661 | the tail loop appends exactly the rest of the list from the stop index |
| Postings.OrPosting | SAR_lib.py:638-663 | the merge plus tail appends computes `Union`: exactly the elements of either input, ascending when both inputs are |
| Postings.Complement | SAR_lib.py:597 | `reverse_posting`: ascending, and x is in it iff x < len(articles) and x is not in p |
| Postings.ComplementBounds | SAR_lib.py:597 | the complement of `[]` is the whole range of article ids, and the complement of the whole range is `[]` |
| Postings.ComplementInvolutive | SAR_lib.py:597 | complementing twice gives back any ascending list of in-range ids |
| Postings.Commutative | SAR_lib.py:611-663 | on ascending inputs AND and OR do not depend on argument order |
| Postings.Associative | SAR_lib.py:611-663 | on ascending inputs AND and OR regroup freely |
| Postings.Idempotent | SAR_lib.py:611-663 | AND and OR of a list with itself give back the list |
| Postings.IncreasingUnique | SAR_lib.py:499-502 | two strictly ascending lists with the same elements are equal, so an ascending key list is determined by its key set |
| Tokenizer.Tokenize | SAR_lib.py:315-327 | every token is non-empty, and consists of word characters taken from the lower-cased text |
| Tokenizer.SplitPieces | SAR_lib.py:327 | `str.split()` yields only non-empty whitespace-free pieces made of characters of its input |
| Tokenizer.SplitWord | SAR_lib.py:327 | a non-empty run without whitespace splits into itself alone |
| Tokenizer.SplitAtSpace | SAR_lib.py:327 | a whitespace character cuts: the pieces of both sides, in order |
| Tokenizer.SubNonWordSplitsLikeBlank | SAR_lib.py:327 | collapsing each `\W+` run to one space splits like blanking each non-word character separately |
| Tokenizer.TokenizeEmpty | SAR_lib.py:327 | the empty text has no tokens |
| Tokenizer.TokenizeWord | SAR_lib.py:327 | a text whose lower-cased form is all word characters is one token, its lower-cased form |
| Tokenizer.TokenizeAtSeparator | SAR_lib.py:327 | a character whose lower-case form is non-word cuts the text; tokens keep their left-to-right order |
| Tokenizer.TokenizeHola | SAR_lib.py:327 | with ASCII tables `"Hola, Mundo!! 2024"` tokenizes to `hola`, `mundo`, `2024` |
| Tokenizer.TokenizeTwoWords | SAR_lib.py:327 | with ASCII tables, two lower-case ASCII words separated by a space are the two tokens |
| Index.Occurrences | SAR_lib.py:290-297 | the positions of a term in a token stream: ascending, exactly where the term occurs |
| Index.EmptyReflects | SAR_lib.py:70-84 | the freshly constructed indexer describes the empty collection |
| Index.ReflectsValid | SAR_lib.py:288-297 | a consistent index has ascending article-id keys below len(articles) and non-empty ascending position lists |
| Index.AddArticleTwice | SAR_lib.py:184-193 | once a record has been added its URL is known, so `already_in_index` holds of it and adding it again, with any document and line, changes nothing |
| Index.Populate | SAR_lib.py:290-297 | the token loop keeps every term already indexed and indexes every token of the stream |
| Index.AddArticle | SAR_lib.py:283-297 | a record whose URL was seen changes nothing; otherwise its URL is added and it gets the next dense id with its document and line |
| Index.PopulateSpec | SAR_lib.py:290-297 | the token loop appends the article to each of its terms' keys with the term's stream positions, and leaves other terms untouched |
| Index.AddArticleReflects | SAR_lib.py:283-297 | one record keeps the index consistent, with the new article's token stream appended exactly when its URL is new |
| Index.PositionsPartition | SAR_lib.py:290-297 | within one article a term is posted at position p iff it is the p-th token, so the position lists partition 0..n-1 |
| Index.NewLines | SAR_lib.py:282-288 | the lines that become articles, ascending: exactly those whose URL is neither known nor on an earlier line |
| Index.IndexLinesSpec | SAR_lib.py:282-297 | after the first k lines: docs unchanged, all their URLs recorded, one reference per new line, the index consistent with their token streams |
| Index.IndexFileSpec | SAR_lib.py:281-297 | `index_file` records the file name, every URL, one (document, i + 1) reference per first-seen line, and keeps the index consistent |
| Index.ReindexSeen | SAR_lib.py:284-285 | a file whose URLs are all known only adds its name to `docs` |
| Index.IndexFile | SAR_lib.py:266-297 | `index_file` appends the file name to `docs`; its full effect is stated by `IndexFileSpec` |
| Index.TwoLineFile | SAR_lib.py:281-297 | two records with distinct URLs in a fresh indexer become articles 0 and 1 at lines 1 and 2 |
| Index.GetPosting | SAR_lib.py:499-502 | `[]` for an unindexed term; on a valid index ascending, below len(articles), exactly the articles the term is posted for |
| Index.GetPostingExact | SAR_lib.py:499-502 | on a consistent index, an article is in the posting iff the term occurs in its tokens |
| Index.AnyStart | SAR_lib.py:521-536 | the loop over one article's start positions succeeds iff the phrase walk succeeds from one of them |
| Index.Walk | SAR_lib.py:523-534 | the walk over the later terms succeeds iff the k-th later term is posted at start + 1 + k |
| Index.ScanArticles | SAR_lib.py:517-536 | the scan adds exactly the articles with a matching start, without duplicates, in key order |
| Index.GetPositionals | SAR_lib.py:515-540 | `[]` when the first term is unindexed; no duplicates; within the first term's posting; ascending on a valid index |
| Index.PositionalsExact | SAR_lib.py:515-540 | an article is returned iff some start q of the first term has every later term k at q + k |
| Index.PositionalsPhrase | SAR_lib.py:515-540 | on a consistent index, an article is returned iff the terms occur as consecutive tokens in it |
| Index.PositionalsWithinPostings | SAR_lib.py:515-540 | every returned article is in the posting of every term of the phrase |
| Index.PhraseWithinConjunction | SAR_lib.py:515-540 | a two-word phrase's articles lie within the AND of the two words |
| Index.PositionalsSingle | SAR_lib.py:515-540 | a one-term phrase gives exactly that term's posting |
| Index.ShownIsNextLine | SAR_lib.py:738-742 | as written, the record shown for an article is the line after the one it was indexed from, or none after the last line |
| Index.ShownWrongRecord | SAR_lib.py:738-742 | for a two-line file, article 0 shows line u1's record and article 1 shows none |
| Index.FetchIsIndexedLine | SAR_lib.py:289 | read as a 1-based line number, each article's reference names its file and the very line it was indexed from |
| Query.OpNames | SAR_lib.py:421-431 | exactly the words `AND`, `OR`, `NOT` are operators, case-sensitively |
| Query.Words | SAR_lib.py:414-415 | the query's words are non-empty, whitespace-free and contain no `"` |
| Query.WordsJoin | SAR_lib.py:414-415 | words joined by spaces come back as the same words |
| Query.QuotedWords | SAR_lib.py:414-415 | enclosing a query in quotes does not change its words |
| Query.SolveJoined | SAR_lib.py:411-415 | a non-empty joined query is answered by folding the resolved groups of its words |
| Query.RunLength | SAR_lib.py:433-440 | the run of non-operator words at the front is maximal |
| Query.CollectRun | SAR_lib.py:433-440 | the inner loop collects the maximal non-operator run at i, at least one word long |
| Query.Group | SAR_lib.py:419-446 | the first pass makes no more groups than words, and none exactly when there are no words |
| Query.GroupShape | SAR_lib.py:419-446 | grouping starts with an operand iff the first word is not an operator; operands hold no operators; no two operands are adjacent |
| Query.GroupUngroup | SAR_lib.py:419-446 | spelling the groups back out gives the original words |
| Query.UngroupGroup | SAR_lib.py:419-446 | any grouped sequence is recovered from its spelling, so grouping is the unique such split |
| Query.ItemsAt | SAR_lib.py:441-446 | each group resolves to its marker, the posting of a one-word run, or the positional posting of a longer run |
| Query.FirstPass | SAR_lib.py:416-446 | the first loop of `solve_query` builds exactly the resolved groups of the words |
| Query.FirstPassStep | SAR_lib.py:419-446 | one iteration consumes at least one word and keeps the list built so far a prefix of the result |
| Query.RunPassStep | SAR_lib.py:432-446 | an operand iteration appends the run's posting and skips past the whole run |
| Query.Next | SAR_lib.py:457-471 | the right operand of AND or OR is one place or a NOT and one place further on |
| Query.MergeContents | SAR_lib.py:611-663 | `and_posting` and `or_posting` on Python lists fail exactly when an id meets a character, both lists being non-empty; otherwise the result holds the two-pointer merge of the contents, and two id lists give an id list |
| Query.Reduce | SAR_lib.py:448-476 | the fold reads past the end of `res` only when `res` ends with an operator |
| Query.ReduceMeaning | SAR_lib.py:448-476 | on a well-shaped list of valid postings the fold succeeds with an ascending in-range list, holding exactly the articles satisfying the left-to-right reading |
| Query.ClauseStep | SAR_lib.py:457-472 | one AND/OR clause advances the fold, keeps the accumulator valid and agrees with the Boolean reading |
| Query.ItemsMeaning | SAR_lib.py:441-446 | on a consistent index the resolved operands are valid postings, and article x is in one iff the run occurs in x's tokens |
| Query.SolveQuery | SAR_lib.py:396-476 | the empty query, and a query of only blanks and quotes, is answered with `[]` |
| Query.SolveQueryMeaning | SAR_lib.py:396-476 | a well-shaped query succeeds with an ascending answer; an article is in it iff it satisfies the query left to right with phrase atoms |
| Query.EmptyQuery | SAR_lib.py:411-412 | the empty query is answered with `[]` |
| Query.TermQuery | SAR_lib.py:441-443 | a one-word query is answered with the word's posting |
| Query.AndNotQuery | SAR_lib.py:457-464 | `a AND NOT b` is the AND of a's posting with the complement of b's |
| Query.LeftToRightQuery | SAR_lib.py:448-476 | `a OR b AND c` is `(a OR b) AND c`: no precedence |
| Query.NotReplacesQuery | SAR_lib.py:454-456 | a NOT clause replaces the accumulator: `a NOT b` is the complement of b alone |
| Query.PhraseQuery | SAR_lib.py:414-446 | `"a b"`, with or without the quotes, is the positional posting of the two words |
| Query.TrailingAndQuery | SAR_lib.py:457-462 | `a AND` fails for reading past the end of the list |
| Query.TrailingAndNotQuery | SAR_lib.py:457-460 | `a AND NOT` fails for reading past the end of the list |
| Query.LoneNotQuery | SAR_lib.py:454-455 | `NOT` alone fails for reading past the end of the list |
| Query.DoubleOperatorQuery | SAR_lib.py:461-464 | `a AND OR a`, with a posted somewhere, fails comparing an article id with an operator name |
| Query.LeadingOrOperatorQuery | SAR_lib.py:465-474 | `OR AND a` is answered with a's posting: OR of `[]` with the name `AND` leaves its characters in `solve`, and the operand `a` then replaces them |
| Query.OperatorsOnlyQuery | SAR_lib.py:465-476 | `OR AND` returns the list of characters `['A', 'N', 'D']` |
| Query.ReduceCharacterMerge | SAR_lib.py:465-472 | two character lists are merged by code point like postings: `Reduce` on the items of `OR AND OR OR` returns `['A', 'N', 'D', 'O', 'R']` |
| Query.GatoCorpus | SAR_lib.py:282-297 | two records containing `Gato` and `gato` both answer `gato`, and re-reading known URLs keeps that answer |
| Query.RereadTermQuery | SAR_lib.py:284-285 | re-indexing a file of known URLs leaves every one-word answer unchanged |
| Query.EverywhereQuery | SAR_lib.py:499-502 | on any index consistent with two token streams, a term occurring in both is answered with both articles |
| Query.CasaVerdeCorpus | SAR_lib.py:516-540 | the phrase `"casa verde"` matches the article with the words adjacent in order, not the one where they are swapped |
| Query.AndNotExample | SAR_lib.py:457-464 | over an index of three articles where `a` is posted for all three and `b` for article 1, the query `a AND NOT b` is answered with articles 0 and 2 |

## Left out

- File and JSON input are not modelled: `open`, `parse_article` and `json.loads`. A crawled file is a sequence of `Article` records with `url` and `all` fields, and a line's index is its position in the sequence.
- `index_dir` is not modelled: it is a filesystem walk that calls `index_file` per file.
- `save_info` and `load_info` are not modelled: they are pickle persistence, a foreign library.
- `show_stats`, `solve_and_count` and `solve_and_test` are not modelled: they only print or count.
- `solve_and_show` is not modelled beyond the line it reads back (see Findings), because it is file re-reading and printing.
- Stemming and permuterm are not modelled. `get_stemming` wraps NLTK's Snowball stemmer. `make_stemming`, `make_permuterm`, `get_permuterm` and `minus_posting` are empty stubs.
- `set_showall`, `set_snippet` and `set_stemming` are not modelled: they only assign flags.
- All `print` calls are left out; they produce no state.
- Tokenizer.Tokenize: Python's `\w` class and `str.lower()` are the parameters `isWord` and `lower`, applied one character at a time. Case mappings that change a string's length or depend on context (such as `'İ'` or final sigma) are not modelled.
- Query.SolveQuery: the `query is None` case is not modelled, since a Dafny string is never None.
- Query.SolveQuery: the words of a query are not lower-cased, just as in the source. So an upper-case query word matches no token.

## Findings

| source | as written | input that shows it | evidently intended | confidence | as-written member | corrected member |
|---|---|---|---|---|---|---|
| SAR_lib.py:289 | `index_file` stores `i + 1`, a 1-based line number, while `solve_and_show` (lines 741-742) matches it against the 0-based `enumerate` index | a file with the two records `u0` and `u1`: article 0 shows the record of `u1`, and article 1 matches no line | each article shows the record it was indexed from | not executed | Index.ShownWrongRecord | Index.FetchIsIndexedLine |
