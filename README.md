# Film search engine: indexes, search and corpus fields

This project models the core of a small information-retrieval system over a corpus of
2018 films built from Wikipedia pages. The system has two search engines over the same
JSON corpus:

- a **boolean engine**. `boolean_index.py` builds an inverted index (term to ascending
  posting list). `boolean_search.py` answers a query with the conjunction of the query
  terms. It intersects the posting lists shortest first.
- a **vector-space engine**. `vs_index.py` builds tf, document frequency, idf and
  length-normalised tf-idf tables. `vs_search.py` takes the union of the query terms'
  posting lists, scores each candidate by its weights times the idf of the query terms,
  and ranks the candidates by descending score. It also reports which query terms each
  hit lacks.

Each engine has a Flask handler `results()` (`boolean_query.py`, `vs_query.py`). The
handler splits the query on single spaces and routes every piece to *skipped*, *clean*
or *unknown*. It then searches the clean terms and cuts one page of 10 hits. The corpus
itself is produced by `building_corpus.py`, `wpparser.py` and `async_building.py`. Their
small field parsers are modelled too:

- run times (`parse_minutes`)
- director names (`parse_director`)
- film titles (`de_film`)
- the story time, location and categories of a page
- contiguous id assignment
- the command-line flags
- the final re-sorting by key

## Conventions

**Foreign code becomes parameters.**
- The NLTK tokenizer, Porter stemmer and English stop list are `tokenize`, `stem` and `stop`.
- `math.log10` and `math.sqrt` are `log10` and `sqrt` over `real`. A property that needs
  a law of theirs takes the law as a premise: `SqrtLaw`, or `log10` non-negative from 1 on.

**Mutable state follows the source.**
- Mutable module-level state becomes a class: `InvertedIndex` for `cache_index` and
  `VectorIndex` for the `tf`/`wf`/`idf`/`w` defaultdicts. Its methods update fields and
  loop as the source does.
- The defaultdict reads that insert keys are written out: `w[d][t]` in `search` pads a
  row with 0.0.
- `vs_search.search` therefore returns the weight table it leaves behind.

**Failures.** Exceptions (KeyError, IndexError, ValueError, ZeroDivisionError,
AttributeError) become `None` or an `ok` flag.

**Ids.** Document ids are `int` throughout.

**Where the code decides.** Where the code and its documentation disagree, the model
follows the code:
- `merge` is documented as an intersection but is a union.
- `disjunctive` is documented as intersecting its lists but merges them.

**One model for shared code.**
- `get_movie_data` is identical in `boolean_search.py:55-67` and `vs_search.py:92-105`,
  and is modelled once.
- The `movie_data` routes only pass its value to a template.

**Modules:**
- `Normalize`, `Postings`, `BooleanIndexing`, `BooleanSearch`, `Presentation`
- `QueryText`, `BooleanQuery`
- `Scoring`, `Ranking`, `LexOrder`, `VectorSearch`, `VectorIndexing`, `VectorQuery`
- `TextFields`, `WpParser`, `AsyncBuilding`, `BuildingCorpus`
- `Wrappers`, which holds `Option`

## Model

| member | source | states |
|---|---|---|
| Normalize.DocTokens | boolean_index.py:15 | A document's tokens are those of its first title followed by those of its text. An empty Title list raises, giving None, and only then. |
| Normalize.FirstUntitled | boolean_index.py:15 | The position of the first record whose Title list is empty, where the driver loop raises. Every record before it has a title. |
| Normalize.Tokenized | boolean_index.py:38-40 | Tokenizing every record in key order gives None exactly when some record has an empty Title list. Otherwise there is one document per record, each its record's `DocTokens`. |
| Normalize.Stems | boolean_index.py:16-18 | A term comes out exactly when it is the stem of some raw token that is not a stop word. There are never more terms than tokens. |
| Normalize.StemsAppend | boolean_index.py:16-18 | The terms of two token runs placed one after the other are the terms of each run, concatenated. |
| Normalize.StemsSingle | boolean_index.py:17-18 | The stop test reads the raw token. A stop word gives nothing, and any other token gives its stem. |
| Normalize.StopTokenContributesNothing | boolean_index.py:17-18 | Inserting a stop-word token anywhere in a document leaves its terms unchanged. |
| BooleanIndexing.InvertedIndex.constructor | boolean_index.py:38 | The index starts empty. |
| BooleanIndexing.InvertedIndex.AddPosting | boolean_index.py:19-22 | Only the touched term changes. A new term gets [id], and otherwise id is appended unless it is already last. Every list stays non-empty and free of adjacent duplicates. |
| BooleanIndexing.InvertedIndex.IndexToken | boolean_index.py:16-22 | One token step extends the partial index of the document's first k tokens to k+1 tokens. |
| BooleanIndexing.InvertedIndex.Index | boolean_index.py:14-22 | After `index(id)`: the key set grows by exactly the document's terms, and the lists of other terms are unchanged. A new term holds [id], and every term of the document ends with id. Strictly ascending lists stay strictly ascending when id exceeds every posted id. |
| BooleanIndexing.InvertedIndex.IndexCorpus | boolean_index.py:8-40 | The driver loop over the corpus records fails exactly when some record has an empty Title list. On failure the index holds only the records before the first such record. Otherwise the keys are exactly the terms of some document, and each list holds the ids of the documents containing its term, in corpus order. |
| BooleanIndexing.PostedValid | boolean_index.py:19-22 | Posting one id keeps every list non-empty and free of adjacent duplicates. |
| BooleanIndexing.IndexedAfterEnds | boolean_index.py:19-22 | A term first seen in the document gets the singleton [id]. Every term of the document has id as its last entry. |
| BooleanIndexing.IndexedAfterAscending | boolean_index.py:21-22 | If every posted id is below id, indexing the document keeps every list strictly ascending. |
| BooleanIndexing.DocsWithMembers | boolean_index.py:39-40 | An id is in a term's list exactly when its document contains the term. |
| BooleanIndexing.DocsWithAscending | boolean_index.py:21-22 | If documents come in strictly ascending id order, every posting list is strictly ascending. |
| BooleanIndexing.DocsWithNonEmpty | boolean_index.py:19-20 | A term's list is non-empty exactly when some document contains the term. |
| BooleanIndexing.InvertsStep | boolean_index.py:39-40 | Indexing the next document of the corpus turns the index of the first k documents into the index of the first k+1. |
| Postings.Intersect | boolean_search.py:33-52 | For any inputs, every kept id lies in both lists, and the result is no longer than either input. For strictly ascending inputs, the result is exactly their common ids, ascending. |
| Postings.Merge | vs_search.py:36-63 | For any inputs, the result holds exactly the ids of either list. For strictly ascending inputs, it is ascending, with length len(p1) + len(p2) minus the number of common ids. |
| Postings.UnionCard | vs_search.py:43-63 | An ascending list holding exactly the union of two ascending lists has length len(p1) + len(p2) minus the number of common ids. |
| Postings.AscendingCard | vs_search.py:43-63 | A strictly ascending list has no repeated element. |
| Postings.AscendingDeterminedByElements | boolean_search.py:24-29 | Two strictly ascending lists with the same elements are equal. So the fold's result does not depend on the order in which the terms are folded. |
| Postings.FirstIndex | boolean_search.py:22-23 | Finds where a term first occurs in the query. This position is the one the dict keeps for that key. |
| Postings.InsertByLength | boolean_search.py:24 | Inserting a term adds exactly that term to the multiset of terms. |
| Postings.SortByLength | boolean_search.py:24 | `sorted(..., key=len)` permutes its input. |
| Postings.InsertByLengthCorrect | boolean_search.py:24 | Stable insertion keeps fold order: shorter list first, and ties in first-occurrence order. |
| Postings.SortByLengthCorrect | boolean_search.py:24 | The stable sort of the dict's keys (in first-occurrence order) is a permutation in fold order. |
| Postings.SortedKeys | boolean_search.py:21-24 | The sorted dict keys are the distinct query terms, each once, in fold order. |
| Postings.OrderByLength | boolean_search.py:21-24 | A query term missing from idx raises KeyError (None), and only then. Otherwise the result holds the distinct query terms, each once, all keys of idx, in fold order. |
| Postings.DistinctFromMultiset | boolean_search.py:21-24 | A permutation of a duplicate-free list is duplicate-free. |
| BooleanSearch.IntersectInOrder | boolean_search.py:25-29 | Folding `intersect` over the ordered terms keeps only ids posted under every term. The result is no longer than any of their lists. On ascending lists it is exactly the ascending intersection, and one term gives that term's list. |
| BooleanSearch.Search | boolean_search.py:10-30 | The empty query gives []. A term missing from idx gives None, and only then. Otherwise every hit is posted under every query term, and there are no more hits than any term's list has entries. On ascending lists the result is exactly the ascending intersection of the distinct terms' lists. A query of one repeated term gives its list. |
| BooleanSearch.GetMovieSnippet | boolean_search.py:70-79 | The snippet is (id, first title, the text cut to 300 characters plus six dots). It is None exactly when the id is missing or the Title list is empty. |
| Presentation.Excerpt | boolean_search.py:79 | The excerpt is a prefix of the text, of at most 300 characters, followed by "......". |
| Presentation.GetMovieData | boolean_search.py:55-67 | A movie's data is its first title, its first director, its first location (or the empty list itself) and its text. It is None exactly when the id is missing or the Title or Director list is empty. |
| QueryText.SpaceAt | boolean_query.py:50 | The position of the first space. |
| QueryText.SpaceAtIs | boolean_query.py:50 | A space with no space before it is the first one. |
| QueryText.Split | boolean_query.py:50 | `split(' ')` always gives at least one piece, and no piece contains a space. |
| QueryText.JoinSplit | boolean_query.py:50 | Joining the pieces with single spaces gives the query back. |
| QueryText.SplitJoin | boolean_query.py:50 | Splitting space-free pieces joined by single spaces gives exactly those pieces, empty ones included. |
| QueryText.DoubleSpace | boolean_query.py:50 | Two adjacent spaces give an empty piece. |
| QueryText.RouteOf | boolean_query.py:60-67 | A piece is skipped exactly when it is a stop word. It is clean exactly when it is not a stop word and its stem is known, and unknown otherwise. |
| QueryText.RoutesPartition | boolean_query.py:60-67 | Every piece lands in exactly one of the three lists, so their lengths add up to the number of pieces. |
| QueryText.RoutesMembers | boolean_query.py:61-67 | `skipped` and `unknown_terms` hold raw pieces, and `clean_terms` their stems. Every clean term is known. |
| QueryText.SliceBound | boolean_query.py:77 | A Python slice bound: a negative bound counts from the end, and the result is clamped to the list. |
| QueryText.PageWindow | boolean_query.py:77 | For any page number, a page is a run of at most 10 consecutive hits. From page 1 on, it starts at hit (p-1)*10 and is empty past the last page. Page 0 is empty. |
| QueryText.NegativePage | boolean_query.py:77 | Page -1 is the second-to-last block of 10 counted from the end. |
| QueryText.PagesConcatenate | boolean_query.py:77 | Pages 1..k concatenate to the first 10k hits. |
| QueryText.AllPages | boolean_query.py:77 | Pages 1..ceil(n/10) concatenate to all n hits. |
| BooleanQuery.RouteTerms | boolean_query.py:57-67 | The routing loop builds exactly the three lists, in query order and with duplicates kept. |
| BooleanQuery.SearchKnown | boolean_query.py:74 | Every clean term is a key of idx, so `search` cannot raise. Its hits are the ids common to every clean term's list, and an empty query gives none. |
| BooleanQuery.Snippets | boolean_query.py:80 | One snippet per id on the page, in page order. The result is None exactly when one lookup raises. |
| BooleanQuery.Results | boolean_query.py:48-83 | Every clean term is a key of idx. An empty clean query gives no hits. The hit count is taken before the page is cut, and the page shows at most 10 snippets. The skipped and unknown lists are the routing's. The result is None exactly when a snippet lookup raises. |
| Scoring.SetScoreRemove | vs_search.py:76-84 | The set-sum score can take out any query term first. |
| Scoring.ScoreOverIsSetScore | vs_search.py:76-84 | Adding the distinct query terms' contributions in any order gives the sum over the query set. |
| Scoring.ScoreOrderIndependent | vs_search.py:76 | Two orders of the same distinct terms give the same score. |
| Scoring.ScoreOfUnrelated | vs_search.py:84 | A document lacking every query term scores 0. |
| Scoring.Padded | vs_search.py:84 | After the reads, the row's keys are its old keys plus the query terms. Old weights are kept, and new keys map to 0.0. |
| Scoring.PaddedWeight | vs_search.py:84 | Padding changes no weight a later read sees. |
| Ranking.InsertNonIncreasing | vs_search.py:87 | Inserting at the stable position keeps scores non-increasing. |
| Ranking.SortByScoreOrdered | vs_search.py:87 | The descending sort orders hits by non-increasing score and keeps every id once. |
| Ranking.SortByScoreRanked | vs_search.py:87 | Stability: items in ascending id order come out with equal scores in ascending id order. |
| Ranking.RankedUnique | vs_search.py:87 | Two lists in ranked order with the same items are equal. |
| LexOrder.LexTotal | vs_search.py:133 | String order is total on distinct strings. |
| LexOrder.SortStringsSorted | vs_search.py:133-136 | `list.sort()` on distinct strings gives them in strictly ascending order. |
| LexOrder.SortedUnique | vs_search.py:128-136 | A strictly sorted list is fixed by its elements, so the iteration order of a set does not matter. |
| VectorSearch.Enumerate | vs_search.py:76 | Iterating a set yields every element once. |
| VectorSearch.MergeInOrder | vs_search.py:28-32 | Folding `merge` over the ordered terms gives exactly the ids posted under some term. The result is ascending when the lists are. |
| VectorSearch.Disjunctive | vs_search.py:13-33 | The empty query gives []. A missing term gives None, and only then. Otherwise the result is exactly the union of the terms' lists, ascending when they are. |
| VectorSearch.AddScore | vs_search.py:83-84 | `scores[d] += w[d][t] * w_q`: a missing row raises. The score grows by the gain, a new key joins the score dict's key order, and the row is padded with t. |
| VectorSearch.AccumulateTerm | vs_search.py:82-84 | One query term over all candidates raises exactly when a candidate has no row. Otherwise it leaves the scores, the key order and the padded rows of the named step functions. |
| VectorSearch.AddedScoresValue | vs_search.py:82-84 | Over distinct candidates, each candidate gains the term's contribution exactly once. |
| VectorSearch.AddedKeysOrder | vs_search.py:82-84 | New keys follow the existing ones, in first-occurrence order. |
| VectorSearch.KeysAfterOrder | vs_search.py:76-84 | The score dict's keys hold each candidate once, and are the candidates in order when those are distinct. |
| VectorSearch.RowsAfterValue | vs_search.py:84 | After scoring, every candidate's row is padded with the query terms, and no other row changes. |
| VectorSearch.ScoresAfterValue | vs_search.py:76-84 | Over distinct candidates, each score is the sum of the query terms' contributions. |
| VectorSearch.ScoreCandidates | vs_search.py:76-84 | Scoring raises exactly when a query term has no idf or a candidate has no row. Otherwise it leaves the scores, key order and rows stated by the step functions. |
| VectorSearch.ScoreTerm | vs_search.py:76-84 | One pass of the outer loop adds term i on top of the terms before it. |
| VectorSearch.RankScores | vs_search.py:87 | `nlargest(len(scores), ...)` yields every (id, score) item once, by non-increasing score. When keys were added in ascending order, ties come out by ascending id. |
| VectorSearch.RankedCandidates | vs_search.py:87 | Ranking keeps exactly the scored candidates, with their scores. |
| VectorSearch.ScoreQuery | vs_search.py:76-84 | The score loops fail exactly when `search` would raise. Otherwise each candidate's score is the sum of its contributions, and every candidate row is padded with the query. |
| VectorSearch.ScoreAndRank | vs_search.py:71-87 | Once the candidates are known: one pair per candidate, unique ids, non-increasing scores, candidate rows padded. On ascending lists the pairs are in ranked order and each score is the set sum. |
| VectorSearch.Search | vs_search.py:66-89 | The empty query gives [] and touches nothing. It is None exactly when a term has no list or no idf, or a candidate has no row. Otherwise there is one pair per candidate in the union, with unique ids and non-increasing scores. Candidate rows are padded with 0.0 for the query terms and other rows are untouched. On ascending lists the pairs are ranked (ties by ascending id), each score being the sum over the query of weight times idf. |
| VectorSearch.GetScoredSnippet | vs_search.py:108-117 | The snippet is (id, first title, the text cut to 300 characters plus six dots, the score). It is None exactly when the id is missing or the Title list is empty. |
| VectorSearch.GetMissingTerms | vs_search.py:120-138 | A missing row raises. Otherwise `missing` holds exactly the terms absent from the row's keys and `matched` exactly those present. Both are sorted, so they are disjoint and together make up the terms. |
| VectorSearch.UsageOrderIndependent | vs_search.py:128-138 | The report depends only on the sets, not on the order a set is iterated in. |
| VectorIndexing.CountsMultiplicity | vs_index.py:35 | The `+= 1` counter holds exactly the elements, each with its multiplicity. |
| VectorIndexing.TermFreqMeaning | vs_index.py:27-35 | `tf[id][t]` is the number of non-stop tokens stemming to t. `doc_terms[id]` is the set of those stems, and a stem is in it exactly when its count is at least 1. |
| VectorIndexing.DocFreqBounds | vs_index.py:39-44 | A document frequency is at most N. It is at least 1 exactly when some document holds the term. |
| VectorIndexing.DfTableCounts | vs_index.py:39-44 | Before line 47, `idf[t]` counts the documents whose term set holds t, once per document. Its keys are exactly the terms of some document. |
| VectorIndexing.IdfWellDefined | vs_index.py:47-49 | Every df lies between 1 and N, so N/df is at least 1 and the division never fails. If log10 is non-negative from 1 on, every idf is non-negative. |
| VectorIndexing.TableKeys | vs_index.py:24-44 | Every document gets a term set. Only documents with terms get tf and wf rows. |
| VectorIndexing.DocTables | vs_index.py:24-44 | With distinct ids, each document's term set, tf row and wf row are computed from its own tokens. |
| VectorIndexing.DocTermsAreCounted | vs_index.py:30-37 | t is in `doc_terms[id]` exactly when `tf[id][t] >= 1`. |
| VectorIndexing.WfFirstBranch | vs_index.py:39-41 | Line 41 always takes its first branch: `wf[id][t] = 1 + log10(tf[id][t])` with `tf >= 1`. |
| VectorIndexing.TermsIndexed | vs_index.py:27-49 | When line 57 runs, every term of a document has a wf entry and an idf entry, so the read invents no zero. |
| VectorIndexing.SquareSumZero | vs_index.py:58 | A sum of squares is 0 exactly when every weight is 0. |
| VectorIndexing.SquareSumScaled | vs_index.py:64-65 | Dividing every weight by len divides the sum of squares by len². |
| VectorIndexing.ScaledIsUnit | vs_index.py:61-65 | Under the square-root law, a row divided by its own non-zero length has length 1. |
| VectorIndexing.LengthZero | vs_index.py:53-61 | Under the square-root law, the length is 0 exactly when every raw tf-idf weight is 0. |
| VectorIndexing.WeightKeys | vs_index.py:52-65 | The weight table has a row for exactly the documents with terms. Each row's keys are exactly that document's terms. |
| VectorIndexing.UnitRows | vs_index.py:52-65 | Under the square-root law, every normalised row's squared weights sum to 1. |
| VectorIndexing.WeighingFails | vs_index.py:52-65 | Under the square-root law, the pass raises ZeroDivisionError exactly when some document has terms whose tf-idf weights are all 0. |
| VectorIndexing.DocFailsAtZeroLength | vs_index.py:61-65 | One document raises exactly when it has terms and length 0. |
| VectorIndexing.FailureExtends | vs_index.py:52-65 | Once a document has raised, the whole pass has. |
| VectorIndexing.VectorIndex.constructor | vs_index.py:85-95 | All tables start empty. |
| VectorIndexing.VectorIndex.CountToken | vs_index.py:31-35 | A non-stop token's stem joins the term set and its count rises by one. A stop word changes nothing. |
| VectorIndexing.VectorIndex.CountTerms | vs_index.py:27-37 | For one document the term set is the stems of its non-stop tokens, and its tf row is their counts. A tf row exists only if some term was counted. Nothing else changes. |
| VectorIndexing.VectorIndex.TallyTerm | vs_index.py:39-44 | One term's wf weight is set and its document count rises by one. |
| VectorIndexing.VectorIndex.TallyTerms | vs_index.py:39-44 | Each term of the document gets its wf weight and one more document counted in idf. Nothing else changes. |
| VectorIndexing.VectorIndex.CountCorpus | vs_index.py:24-44 | After the first loop, tf, doc_terms and wf are the per-document tables. idf is the document-frequency counter. |
| VectorIndexing.VectorIndex.ComputeIdf | vs_index.py:47-49 | Every counter becomes log10(N/df), and nothing else changes. |
| VectorIndexing.VectorIndex.SetWeight | vs_index.py:57 | A write to `w[id][t]` creates the row on first use. |
| VectorIndexing.VectorIndex.RawWeights | vs_index.py:55-61 | One document's raw weights wf·idf are written, and their sum of squares is returned. |
| VectorIndexing.VectorIndex.Normalize | vs_index.py:62-65 | Every weight is divided by the length. It fails exactly when the document has terms and length 0. |
| VectorIndexing.VectorIndex.WeighDoc | vs_index.py:53-65 | One document's row is written raw and then normalised. It fails exactly at length 0. A document without terms gets no row. |
| VectorIndexing.VectorIndex.Weigh | vs_index.py:52-65 | Weighing the corpus succeeds exactly when the weight table is defined, and then w is that table. |
| VectorIndexing.VectorIndex.Build | vs_index.py:11-65 | From empty tables over the corpus records, `index()` fails when some record has an empty Title list. It then leaves tf, doc_terms, wf and the df counts as counted from the records before that one, and w empty. Otherwise it leaves tf, doc_terms and wf as computed from the corpus, with every df at least 1. idf is then log10(N/df), and w is the normalised table unless some document has length 0. |
| VectorQuery.RouteTermSets | vs_query.py:64-74 | The loop builds exactly the sets of skipped pieces, clean stems and unknown pieces. |
| VectorQuery.RouteSetsMeaning | vs_query.py:67-74 | Stop words and unknown pieces never mix. Every clean term is a key of idf. |
| VectorQuery.ScoredSnippets | vs_query.py:87 | One scored snippet per hit on the page, in page order. The result is None exactly when one lookup raises. |
| VectorQuery.PageUsage | vs_query.py:88 | One usage report per hit on the page. Each lists that hit's missing and matched clean terms against the table it is given. |
| VectorQuery.Results | vs_query.py:51-88 | Code as written. Clean terms are idf keys, and an empty clean query gives no hits. `search` raising gives None. Otherwise the hits are the union of the clean terms' postings, with unique ids and non-increasing scores. When every posting list is ascending, the hits are ranked by score and then id, and each score is the document's summed weight. The page holds at most 10 hits. The hit count comes before the cut, and the table is padded. The usage is computed against the padded rows, so no hit ever reports a missing term. |
| VectorQuery.PageHitsPadded | vs_query.py:81-88 | Every hit on the page is a candidate, so its padded row holds every clean term. |
| VectorQuery.NothingMissing | vs_query.py:88 | A report against a row holding every term lists nothing missing. |
| VectorQuery.PaddingHidesMissingTerm | vs_query.py:88 | A concrete query shows the problem. The search raises nothing, and a hit lacks a clean term, yet its padded row holds that term. |
| VectorQuery.CorrectedResults | vs_query.py:51-88 | The handler with `search` reading `w[d].get(t, 0.0)`, which writes nothing. The table is returned unchanged, so every later request also sees the stored rows. The hits, their ranking and scores, the page, skipped, unknown and the hit count are as in `Results`. Each hit on the page reports exactly the clean terms its document lacks. It is None exactly when search or a snippet raises. |
| TextFields.Show | wpparser.py:61 | The decimal numeral of n: digits only, with no leading zero. |
| TextFields.ValueShow | wpparser.py:61 | `int(str(n)) == n`. |
| TextFields.LeadingDigits | async_building.py:130 | The maximal run of digits at the start of the string: a prefix, made of digits, followed by a non-digit or the end. |
| TextFields.LeadingDigitsOf | async_building.py:130 | Digits followed by a non-digit: the run stops exactly there. |
| TextFields.DigitRuns | wpparser.py:59-60 | `findall(r'\d+')`: every run is a non-empty digit string. There is no run exactly when the string has no digit. |
| TextFields.DigitRunsSkip | wpparser.py:60 | Characters that are not digits contribute no run. |
| TextFields.DigitRunsShow | wpparser.py:60 | A numeral followed by a non-digit is the next run. |
| TextFields.FirstField | wpparser.py:55 | The first piece of `re.split` on "<br>" or a vertical bar is the longest prefix in which no separator starts. It ends at a separator or at the end of the string. |
| TextFields.FieldClean | wpparser.py:55 | The field contains neither a vertical bar nor "<br>". |
| TextFields.FieldBefore | wpparser.py:55 | A separator-free name followed by a vertical bar or "<br>" is the field. |
| WpParser.ParseMinutes | wpparser.py:58-66 | The result is None (`time[0]` raises) exactly when the string holds no digit. |
| WpParser.MinutesOnly | wpparser.py:59-61 | A single number is returned as it is. |
| WpParser.MinutesFirst | wpparser.py:63-66 | A first number above 3 is returned as it is ("104 minutes" gives 104). |
| WpParser.HoursAndMinutes | wpparser.py:63-65 | A first number of at most 3 followed by a second gives hours·60 + minutes ("1 hour 45 min" gives 105). |
| WpParser.TwoRuns | wpparser.py:60 | Two numbers separated by text are the first two runs. |
| WpParser.MinutesAfterText | wpparser.py:60 | Text before the first digit does not change the result. |
| WpParser.StripPairs | wpparser.py:55 | One left-to-right pass removes pairs, and so removes an even number of characters. |
| WpParser.StripPlain | wpparser.py:55 | Text without brackets passes through unchanged. |
| WpParser.StripLeading | wpparser.py:55 | A doubled bracket at the front is removed. |
| WpParser.NotRescanned | wpparser.py:55 | The pass does not rescan: "[{{[" gives "[[" and "{[[{" gives "{{". |
| WpParser.ParseDirector | wpparser.py:47-55 | The director contains neither separator. It is the cleaned string up to its first separator, or all of the cleaned string. It never fails. |
| WpParser.LinkedDirector | wpparser.py:55 | "[[name]]" gives the name. |
| WpParser.FirstDirector | wpparser.py:55 | "[[name]]" followed by a separator and more gives the name. |
| AsyncBuilding.ParseMinutes | async_building.py:129-130 | It fails exactly when the string is empty or does not start with a digit. Otherwise it is the value of the leading digit run. |
| AsyncBuilding.MinutesLeading | async_building.py:130 | "120 min" gives 120. |
| AsyncBuilding.VersionsAgree | async_building.py:130 | On a leading number above 3 both versions agree. |
| AsyncBuilding.HoursDiffer | async_building.py:130 | "1 h 30 min" gives 1 here and 90 in the wpparser version. |
| AsyncBuilding.LeadingTextDiffers | async_building.py:130 | "Runtime 95" fails here and gives 95 in the wpparser version. |
| AsyncBuilding.ReplacePair | async_building.py:124-126 | `str.replace` of a doubled character never lengthens the string. |
| AsyncBuilding.ReplaceHead | async_building.py:124-126 | The result starts with the character only if the input does. |
| AsyncBuilding.NoPairLeft | async_building.py:124-126 | After a replace, no doubled character of that kind is left. |
| AsyncBuilding.ReplaceAbsent | async_building.py:124-126 | A replace of a character the string lacks changes nothing. |
| AsyncBuilding.RemovePairAfter | async_building.py:124-126 | A single pair after pair-free text is deleted. |
| AsyncBuilding.NoClosingBraces | async_building.py:124-126 | After the four replaces in sequence, no "}}" is left. |
| AsyncBuilding.SequentialVersusOnePass | async_building.py:124-126 | Sequential replaces delete pairs made by an earlier deletion: "{[[{" gives "" here and "{{" in wpparser. |
| AsyncBuilding.ParseDirector | async_building.py:123-126 | The director contains neither separator. It is the cleaned string up to its first separator. |
| AsyncBuilding.SequentialOfLink | async_building.py:124-126 | "[[a]]" then a vertical bar then b, with a and b bracket-free, is cleaned to a, the bar, then b. |
| AsyncBuilding.FirstDirectorAgrees | async_building.py:123-126 | On "[[name]]" followed by a vertical bar and more, both versions give the name. |
| BuildingCorpus.FilmClose | building_corpus.py:34 | Where greedy `.*[fF]ilm\)` ends: the last "film)" or "Film)" reachable without crossing a newline. |
| BuildingCorpus.MatchAt | building_corpus.py:34 | A match of `\s\(.*[fF]ilm\)` is at least 7 characters long. |
| BuildingCorpus.DeFilm | building_corpus.py:34 | Deleting the matches never lengthens the title. |
| BuildingCorpus.DeFilmUnchanged | building_corpus.py:34 | A title with no match is unchanged. |
| BuildingCorpus.FilmCloseAtEnd | building_corpus.py:34 | A group ending in "film)" closes at that end. |
| BuildingCorpus.DeFilmGroup | building_corpus.py:34 | A title followed by " (…film)" or " (…Film)" gives the title. |
| BuildingCorpus.Halloween | building_corpus.py:34 | "Halloween (2018 film)" gives "Halloween". |
| BuildingCorpus.StoryTime | building_corpus.py:119-122 | The leading match of `[12]?\d{3}`, or "". It is a digit prefix of length 0, 3 or 4: it is empty exactly when the text does not start with three digits, and has four exactly when it starts with 1 or 2 followed by three digits. |
| BuildingCorpus.StoryYear | building_corpus.py:119-122 | A text starting with a year from 1000 to 2999 gives that year. |
| BuildingCorpus.StoryYearBeyond | building_corpus.py:119-122 | A text starting with a four-digit number from 3000 up gives its first three digits. |
| BuildingCorpus.StoryTimeWord | building_corpus.py:119-122 | A text starting with a non-digit gives "". |
| BuildingCorpus.StoryLocation | building_corpus.py:124 | The location is the first country, or "" when there is none. |
| BuildingCorpus.Categories | building_corpus.py:127-131 | The loop keeps the keys not starting with "Use", less their first 9 characters, in key order. The same loop appears at async_building.py:109-113. |
| BuildingCorpus.CategoriesMembers | building_corpus.py:127-131 | There are no more categories than keys. A category comes only from a key not starting with "Use". |
| BuildingCorpus.Prefixed | building_corpus.py:127-131 | Prefixing each name with "Category:" keeps the count. |
| BuildingCorpus.CategoriesOfPrefixed | building_corpus.py:127-131 | Names prefixed with "Category:" come back as the names. |
| BuildingCorpus.Articles | building_corpus.py:262-263 | Dropping the category pages never lengthens the member list. |
| BuildingCorpus.AssignIds | building_corpus.py:259-267 | The pages not starting with "Category:" get ids 1, 2, 3… in member order. A positive LIMIT below their number stops after LIMIT pages. Otherwise, including `LIMIT = False`, every page is taken. |
| BuildingCorpus.AssignStep | building_corpus.py:262-265 | One member: a category page changes nothing, and an article gets the next id. |
| BuildingCorpus.ArticlesPrefix | building_corpus.py:262-263 | The articles of a member prefix are a prefix of all the articles. |
| BuildingCorpus.NumberedNext | building_corpus.py:264-265 | Adding (page, n+1) numbers one more article. |
| BuildingCorpus.TakenAtLimit | building_corpus.py:266-267 | Stopping at the limit gives the numbering of the first LIMIT articles. |
| BuildingCorpus.NumberedPrefix | building_corpus.py:264-265 | Numbering the first n articles depends only on those n. |
| BuildingCorpus.ContiguousIds | building_corpus.py:259-267 | The assigned ids are exactly 1..n, each used once. |
| BuildingCorpus.PyInt | building_corpus.py:231 | `int(s)` succeeds only on a non-empty string. |
| BuildingCorpus.PyIntShow | building_corpus.py:231 | `int(str(n))` is n, and `int('-' + str(n))` is -n. |
| BuildingCorpus.ParseArgs | building_corpus.py:228-242 | With no arguments the defaults stand. Otherwise the flags after the script name are read left to right. |
| BuildingCorpus.NoFlags | building_corpus.py:228-242 | Arguments that are not flags are skipped. |
| BuildingCorpus.ModeFromString | building_corpus.py:236-238 | `-m` takes the truth of a string, so "False" turns the mode on and only "" leaves it off. |
| BuildingCorpus.LimitFlag | building_corpus.py:239-241 | `-l n` sets the limit to n and goes on after its argument. |
| BuildingCorpus.LastLimitWins | building_corpus.py:239-241 | Of two `-l` flags, the last wins. |
| BuildingCorpus.FlagErrors | building_corpus.py:230-241 | A flag with nothing after it raises IndexError. A numeric flag on "ten" raises ValueError. |
| BuildingCorpus.Range | building_corpus.py:276 | The keys 1..n, n of them. |
| BuildingCorpus.SortByKey | building_corpus.py:275-277 | It fails (KeyError) exactly when some key in 1..len is missing. Otherwise it gives the entries under keys 1..len, in key order. |
| BuildingCorpus.SortedKeys | building_corpus.py:275-277 | Keys 1..len are all present exactly when the keys are exactly 1..len. |
| BuildingCorpus.AssignedIdsSort | building_corpus.py:259-277 | A table keyed by the assigned ids has exactly the keys 1..len, so the re-sorting cannot fail. |

## Left out

- I/O and the web layer:
  - Flask routing and templates
  - shelve and JSON persistence, including the copy to the shelf at boolean_index.py:42-43
  - `perf_counter` timing
  - the form parsing of `page_num` and `missing`, which arrive as parameters
- Corpus crawling is omitted because it is network I/O and concurrency:
  - HTTP, the Wikipedia API, wptools
  - aiohttp and asyncio, multiprocessing
  - the `wpParser` constructor and `parse_entry_wp`
  - the async `parse_entry` network branch
- `imdbparser.py` and `async_imdb_parser.py` are not part of this model: they are BeautifulSoup DOM queries.
- `parse_sublist` is omitted: it is a Python regular expression with Unicode `\w` and ordered alternation, which needs a regex-engine model.
- NLTK components are parameters and are not re-implemented: `word_tokenize`, the stop list and the Porter stemmer.
- Floating point:
  - Weights are `real`.
  - `log10`, `sqrt` and `pow` are not IEEE operations.
  - `1 + log10(1)` at vs_search.py:78 is taken to be exactly 1.
- Document ids:
  - They are `int`.
  - The model does not track the `str`/`int` conversions (`int(id)`, `str(d)`, the JSON string keys).
- Iteration order:
  - Python's set and dict iteration order is left open where results do not depend on it (`Enumerate`, the idf loop).
  - Where they do depend on it, the order is given as in the code: the score dict's insertion order and the corpus order of `for id in data`.
- VectorQuery.Results: when `search` raises midway, the rows it already padded stay padded in Python. The model returns the table unchanged on that path.
- VectorIndexing.VectorIndex.Weigh: after a ZeroDivisionError the contents of `w` are not stated. They are the rows written so far.
- BooleanIndexing.InvertedIndex.IndexCorpus: the corpus dict is a sequence of (id, record) pairs with distinct ids, in the dict's key order. The same holds for VectorIndexing.VectorIndex.Build.
- Characters:
  - `\d` and `\s` are ASCII only.
  - `PyInt` accepts only an optional sign followed by ASCII digits. Python's `int()` also accepts surrounding whitespace, underscores between digits and Unicode digits, and the model does not.
  - Strings are sequences of characters, with no encoding.
- Pages in the id assignment are identified by their titles, and the `wiki.page` lookup is left out.

## Findings

| source | as written | input that shows it | evidently intended | confidence | as-written member | corrected member |
|---|---|---|---|---|---|---|
| vs_query.py:88 | `get_missing_terms` reads `w` after `search` has read `w[d][t]` for every candidate and clean term. The rows are `defaultdict(float)`, so those reads inserted every clean term, and no hit is ever reported as missing a term. | w = {1: {"a": 0.5}, 2: {"b": 0.5}}, idx = {"a": [1], "b": [2]}, query "a b" with both terms known: document 1 is a hit lacking "b", yet its usage lists nothing missing | `search` reads without inserting, so the table stays as stored across requests and each hit reports the clean terms its stored row lacks | not executed | VectorQuery.PaddingHidesMissingTerm | VectorQuery.CorrectedResults |
