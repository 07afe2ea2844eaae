# Concordance indexer: a Dafny model

This project models the core of a concordance generator written in Python.

- **Indexing.** A document is read in fixed-size chunks and cut into sentences. The sentences are numbered 1, 2, 3, … across chunk boundaries. The sentence cut at the end of a chunk is carried over and re-segmented together with the next chunk.
- **Word rows.** Each sentence is cut into tokens. A token is dropped only when it is punctuation of length 1 or 3. Every other token is lower-cased and stripped, and becomes a `(word, sentence_no)` row (plus the shard number in the queue worker) when something is left.
- **Storage.** Rows are buffered and written to the store in bulk once the buffer reaches the bulk size. At the end of input one more sentence, the final leftover, is numbered, but only while rows are still buffered. Then a sentinel row with the word `'z' * 25` is written.
- **Listing.** Reading the rows back in word order, the listing prints one line per completed group of equal words. Each line is a letter label (`a.`, `b.`, …, `aa.`), the word padded to 25 columns, and `{count:list}` of the sentence numbers.
- **Helpers.** Chunked reading of a file, the default database name `bridgewater<n>.db`, and the shard number taken from the suffix of a queued file name.

Modules, one per concern:

| module | file | what it holds |
|---|---|---|
| `Wrappers` | wrappers.dfy | `Option` |
| `Seqs` | seqs.dfy | facts about sequences every module uses |
| `Strings` | strings.dfy | the Python string operations used, on ASCII: `lower`, `strip`, `str(n)`, `int(s)`, `join`, `split`, `c * n`, and binary text order |
| `Nlp` | nlp.dfy | tokens, plus the segmenter (sentences as the library returns them, whitespace included) and the tokenizer as function-valued parameters, with the two assumptions made about the segmenter |
| `TokenFilter` | token_filter.dfy | the token drop and normalise rule shared by both indexers |
| `Helpers` | helpers.dfy | `read_in_chunks` (a loop over a read cursor) and the database-name default |
| `Streaming` | streaming.dfy | the chunk, leftover, numbering and buffer state machine as functions of the chunks read so far; both indexers are proved against it |
| `Rows` | rows.dfy | the word rows both indexers build, the rows of a numbered run of sentences, and the sentinel word |
| `Db` | db.dfy | a connection as a class whose row sequence bulk inserts append to |
| `Concordance` | concordance.dfy | the single-process indexer: `add_sentence_to_word_rows` and `add_data_to_db` |
| `Worker` | worker.dfy | the queue worker: three-column rows, the per-shard `add_data_to_db`, and the file-name parse in `handle_message` |
| `Listing` | listing.dfy | `integer_to_letter` and `print_db` |

The two assumptions about the segmenter are these:
- `Segments`: it returns at least one sentence for non-empty text, because the indexer reads `sents[-1]`.
- `PrefixStable`: re-segmenting the carried-over last sentence together with the next chunk gives the same sentences as segmenting the concatenated text.

`PrefixStable` is needed only for the lemmas that compare chunked reading with whole-document segmentation. The inductions behind them need it only at the chunk boundaries (`StableBoundaries`).

The indexer strips every sentence, the carried-over one included, before it is joined with the next chunk. So as written, chunked reading matches whole-document segmentation when a third condition holds, `CleanBoundaries`: the sentence in progress at each chunk boundary neither starts nor ends with whitespace. The condition is sufficient, not necessary. The corrected carry, which keeps the leftover unstripped until it is numbered, needs no such condition (see Findings).

## Model

| member | source | states |
|---|---|---|
| Strings.Lower | concordance.py:135 | `lower()` keeps the length, leaves no upper-case letter, and maps each character on its own |
| Strings.StripSpec | concordance.py:135 | `strip()` removes exactly the whitespace at both ends: what remains is the middle slice of the input, with whitespace on either side of it, and it neither starts nor ends with whitespace |
| Strings.IntToStringRoundTrip | add_data_worker.py:99 | `int(str(n)) == n` for every integer |
| Strings.StripEachAppend | concordance.py:179 | stripping the sentences of a list piece by piece is stripping the whole list, so the sentences numbered across chunks are the stripped sentences of the joined segmentation |
| Strings.SplitAround | add_data_worker.py:99 | splitting at one occurrence of the separator splits the two sides independently |
| Strings.SplitJoin | concordance.py:227 | splitting a `sep.join` at the separator gives back the pieces when none holds it |
| Strings.LexLessTransitive | concordance.py:222 | the `ORDER BY word` order is transitive |
| TokenFilter.NarrowPunctuationRule | concordance.py:131-132 | punctuation of length 1 or 3 is dropped; punctuation of any other length, like a non-punctuation token, is kept when it normalises to a non-empty word |
| TokenFilter.KeptWordsMembership | concordance.py:129-138 | a word is indexed if and only if some token that the punctuation rule does not drop normalises to it and it is non-empty |
| TokenFilter.KeptWordsAppend | concordance.py:145-154 | the filter commutes with concatenation, so words keep the order of their tokens |
| TokenFilter.KeptWordsAreIndexWords | concordance.py:135-138 | every indexed word is non-empty, has no upper-case letter, and has no whitespace at either end |
| TokenFilter.NormalisedIsIndexWord | concordance.py:135-137 | a lower-cased and stripped token that is non-empty is an index word |
| Helpers.Read | helpers.py:8 | `read(n)` returns the next at most `n` characters from the cursor, or the whole rest when `n` is negative |
| Helpers.ReadInChunks | helpers.py:5-11 | the read loop yields exactly the chunks of `ChunksOf`, no chunk empty, each at most `chunk_size` long, concatenating back to the text, and none for empty input |
| Helpers.ChunksOfSpec | helpers.py:5-11 | the chunks concatenate to the text, every chunk is at most `size` long and all but the last exactly `size`, size 0 gives no chunks, and a negative size gives the whole text at once |
| Helpers.ChunksNonEmpty | helpers.py:9-11 | no yielded chunk is empty |
| Helpers.DbName | helpers.py:14-18 | a non-empty given name is used as is; otherwise the name is `bridgewater`, then the shard number, which reads back from the name, then `.db` |
| Helpers.DefaultDbNamesDistinct | helpers.py:17-18 | different shards get different default databases |
| Helpers.DefaultDbNameIsBridgewater1 | helpers.py:14-18 | the default for shard 1, with no name or an empty one, is `bridgewater1.db` |
| Db.Connection.InsertWordRows | concordance.py:100-109 | a bulk insert followed by a commit appends the batch to the stored rows |
| Streaming.Step | concordance.py:171-191 | after one chunk the buffer holds fewer than `bulk` rows |
| Streaming.BufferBelowBulk | concordance.py:189-191 | after every chunk the buffer is below the bulk size |
| Streaming.FinalLeftoverRule | concordance.py:194-197 | one more sentence is numbered, after the complete sentences, exactly when rows are still buffered at the end, and that sentence is the final leftover |
| Streaming.FeedFollowsSegmentation | concordance.py:171-187 | as written, when the segmenter honours the carry-over contract at every chunk boundary and the sentence in progress at each boundary neither starts nor ends with whitespace, the sentences numbered so far are the stripped complete sentences of the text read so far, and the leftover is its stripped last sentence |
| Streaming.StepFollows | concordance.py:174-187 | one more chunk after a text whose segmentation the progress follows, with the unstripped last sentence carried over, keeps both carries in step with the segmentation of the longer text |
| Streaming.ChunkedSegmentation | concordance.py:171-187 | as written, with a carry-over-respecting segmenter and clean chunk boundaries, the numbered complete sentences followed by the final leftover are the stripped segments of the concatenated chunks |
| Streaming.CarryStep | concordance.py:174-191 | the corrected step, which carries the last sentence unstripped, also leaves fewer than `bulk` rows in the buffer |
| Streaming.CarryFeedFollowsSegmentation | concordance.py:174-187 | with the leftover carried over unstripped, the progress follows the segmentation of the text read so far wherever the chunk boundaries fall |
| Streaming.CarriedSegmentation | concordance.py:171-187 | with the leftover carried over unstripped, the numbered sentences followed by the stripped leftover are the stripped segments of the concatenated chunks, with no condition on whitespace |
| Streaming.WordsGlueAtChunkBoundary | concordance.py:174-182 | as written, chunks "quick " and "brown" of the one-sentence document "quick brown" give the single segment "quickbrown"; the corrected carry gives "quick brown" |
| Streaming.LastSegmentDroppedWhenBufferEmpty | concordance.py:194-197 | as written, when the buffer is empty at the end, the numbered sentences are all the segments but the last |
| Streaming.OneSentenceDocumentIsLost | concordance.py:194-197 | as written, a document of one chunk that is one sentence gets no sentence numbered, although it has one segment |
| Streaming.WholeDocumentSegmentation | concordance.py:158-197 | with every segment numbered, the last included, the segments of the chunked document equal the stripped segmentation of the whole document, under clean chunk boundaries; an empty document has none |
| Streaming.CarriedDocumentSegmentation | concordance.py:158-197 | with every segment numbered and the leftover carried unstripped, the segments of the chunked document equal the stripped segmentation of the whole document for any non-zero chunk size; an empty document has none |
| Concordance.AddSentenceToWordRows | concordance.py:145-154 | appends one `(word, sentence_no)` row per kept token, in token order, to the rows given |
| Rows.RowsFromNumbering | concordance.py:184-187 | every row of a run of sentences holds an index word and a number in the run's range, and numbers never decrease along the rows |
| Rows.RowsFromAppend | concordance.py:184-187 | numbering two runs of sentences one after the other gives the rows of the joined run |
| Concordance.AddSentences | concordance.py:184-187 | numbers the complete sentences consecutively after `sentence_no` and appends their rows |
| Concordance.IndexChunk | concordance.py:171-191 | one chunk keeps the invariant: leftovers, count and buffer size agree with `Step`, and store plus buffer hold the rows of every sentence numbered so far |
| Concordance.Close | concordance.py:194-203 | returns the number of sentences numbered, and the store ends with the rows of every numbered sentence followed by the sentinel row |
| Concordance.AddDataToDb | concordance.py:158-203 | the store gains the rows of the numbered sentences, numbered from 1 in order, then the sentinel row; the result is the number of sentences numbered |
| Worker.AddSentenceToWordRows | add_data_worker.py:29-42 | appends one `(word, sentence_no, file_no)` row per kept token, in token order |
| Worker.ShardRowsShape | add_data_worker.py:39-40 | every row of a shard carries the shard's number unchanged, an index word and a sentence number in range, and sentence numbers never decrease |
| Worker.AddSentences | add_data_worker.py:72-75 | numbers the complete sentences consecutively and appends their three-column rows |
| Worker.IndexChunk | add_data_worker.py:59-79 | one chunk of the worker keeps the same invariant as the single-process indexer, with shard-tagged rows |
| Worker.Close | add_data_worker.py:82-89 | returns the number of sentences numbered; the shard's store ends with their rows and then the shard's sentinel row |
| Worker.AddDataToDb | add_data_worker.py:45-93 | the shard's database gains the shard-tagged rows of the numbered sentences, then `('z'*25, 0, file_no)`; the result is the count |
| Worker.ShardNumberOfName | add_data_worker.py:99 | a file named `<stem>.<n>` is shard `n`, whatever dots the stem holds |
| Worker.HandleMessage | add_data_worker.py:96-103 | a name with no integer suffix writes nothing and publishes nothing; otherwise the shard is indexed into its own database and the count is published |
| Listing.CeilDiv26Bounds | concordance.py:207 | the integer ceiling is the smallest lap count covering the line number |
| Listing.LabelShape | concordance.py:205-211 | for n ≥ 1 the label is the letter `(n-1) mod 26` repeated `ceil(n/26)` times, a dot, and `6 - ceil(n/26)` spaces |
| Listing.LabelOfNonPositive | concordance.py:205-211 | a line number of zero or less gives a dot and six spaces |
| Listing.LabelWidth | concordance.py:210-211 | labels are 7 columns wide up to line 156 and lose their padding beyond it |
| Listing.LabelRoundTrip | concordance.py:205-211 | the line number reads back from its label |
| Listing.LabelsDistinct | concordance.py:205-211 | different lines never share a label |
| Listing.SomeLabels | concordance.py:205-211 | lines 1, 26, 27, 30, 52 and 53 are labelled `a.`, `z.`, `aa.`, `dd.`, `zz.`, `aaa.`, padded to 7 columns |
| Listing.HeadLayout | concordance.py:226-234 | for lines up to 156 and words up to 25 characters, the label and padded word take 32 columns, with the word starting at column 7 |
| Listing.CountAndListRoundTrip | concordance.py:227 | the count before the colon reads back as the number of occurrences, and the list after it splits back into the printed sentence numbers |
| Listing.LineLayout | concordance.py:224-235 | a line is the 32-column head, `{`, the count and list, and `}` |
| Listing.GroupsShape | concordance.py:224-241 | every group has a number, neighbouring groups hold different words, and the last group holds the last row's word |
| Listing.GroupsRoundTrip | concordance.py:222-241 | expanding the groups gives back the rows exactly, in order |
| Listing.GroupsKeepWords | concordance.py:222-241 | the groups hold exactly the words of the rows |
| Listing.ScanFollowsGroups | concordance.py:222-241 | the scan state after any rows of non-empty words has printed every group but the last, numbered 1, 2, 3, …, and holds the last group pending |
| Listing.SortedGroups | concordance.py:222 | over word-ordered rows the group words strictly increase, so no word gets two lines |
| Listing.PrintDb | concordance.py:214-246 | the loop prints the rendered lines of the scan; for non-empty words these are the lines of every group but the last |
| Listing.ListingBeforeSentinel | concordance.py:222-241 | with non-empty stored words and a last row whose non-empty word sorts after every other, exactly the groups of the other rows are printed, numbered from 1 |
| Listing.SentinelSortsLast | concordance.py:201 | `'z' * 25` sorts after every other word of at most 25 characters that uses no character past `z` |
| Listing.ListingOfSortedStore | concordance.py:222-241 | for a word-ordered store whose words sort before the sentinel, one line per distinct word, in increasing order, with every row accounted for |
| Listing.WordAfterSentinelIsLost | concordance.py:222-241 | as written, with the rows ('z'*25, 0), ('über', 1) only the sentinel's line is printed; the scan's last group, here a real word's, is lost |
| Listing.CompleteListing | concordance.py:222-241 | scanning and flushing the last group at the end lists every group of any rows with non-empty words, whatever their order; every row the indexers write has a non-empty word |

## Left out

- spaCy: sentence segmentation and tokenisation are parameters (`Segmenter`, `Tokenizer`). A token is its text plus whether it is tagged `PUNCT`. The segmenter returns each `sent.string` with its whitespace, and the indexer's `strip()` is applied to it in the model (`StripEach`).
- SQLite: a connection is the sequence of rows it has committed. `CREATE TABLE`, `CREATE INDEX`, `commit` and `close` are not modelled. The `ORDER BY word` query becomes a precondition (`Sorted`, under binary collation) on the rows given to the listing. SQL gives no order among rows of the same word.
- `get_connection` in concordance.py, `create_words_table` and `add_index_to_db`: schema and connection set-up. `create_words_table` also empties the table (`DELETE FROM words`, concordance.py:95) before indexing starts; the model instead appends to whatever rows the store already holds, so its contracts cover the source's case of an empty store as the special case `old(db.rows) == []`.
- The thread pool: `add_word` runs through `pool.map` in concordance.py, so the order of appends to the shared list is not fixed. The model uses the sequential loop of concordance.py:145-154 and add_data_worker.py:31-40.
- RabbitMQ: consuming, acknowledging and declaring queues are not modelled. `HandleMessage` returns the count it would publish and receives the already-decoded file name.
- File I/O: a file is its text and a read cursor. `print` and `f.write` are replaced by the returned list of lines, without newlines. The command-line `__main__` blocks and timing are not modelled.
- `BULK_INSERT_SIZE` and `CHUNK_SIZE` of the worker come from a constants module that is not part of this model, so `Worker.AddDataToDb` takes them as parameters. The single-process indexer uses its own 2500 and 1024.
- Strings: `lower`, `strip`, `isspace` and `int` are modelled on ASCII only. Python's Unicode case mapping, Unicode whitespace, non-ASCII digits and `_` digit separators in `int` are not modelled.
- `math.ceil(integer / 26.0)`: modelled as exact integer ceiling division. Floating-point rounding for very large integers is not modelled.
- Python lists updated in place (`word_rows.append`, `del word_rows[:]`, `occurrence_list`): modelled as sequence values that the methods return or reassign, so aliasing of the caller's list is not captured.
- The lemmas comparing chunked reading with whole-document segmentation assume the segmenter honours the carry-over contract (`PrefixStable`, or `StableBoundaries` at the chunk boundaries). Nothing is claimed about spaCy itself.
- Streaming.ChunkedSegmentation and Streaming.WholeDocumentSegmentation state that chunked reading matches whole-document segmentation when the chunk boundaries are clean (`CleanBoundaries`: the sentence in progress at each boundary neither starts nor ends with whitespace), because the carry as written loses whitespace; they say nothing about other chunkings, some of which still match; Streaming.CarriedSegmentation and Streaming.CarriedDocumentSegmentation drop that assumption for the corrected carry.

## Findings

| source | as written | input that shows it | evidently intended | confidence | as-written member | corrected member |
|---|---|---|---|---|---|---|
| concordance.py:194-197 | the final leftover is numbered and indexed only when rows are still buffered (`if word_rows:`), so it is lost whenever the buffer happens to be empty at the end; the same block is at add_data_worker.py:82-85 | a one-chunk document that is a single sentence, e.g. "Dogs bark.": no sentence is numbered and no row is written | every segment of the document, the last included, is numbered and indexed | not executed | Streaming.OneSentenceDocumentIsLost | Streaming.WholeDocumentSegmentation |
| concordance.py:222-241 | the listing prints a group only when a row with a different word follows, so the last group of the scan is never printed; the sentinel `'z'*25` (concordance.py:201) is meant to be that group, but when a word sorts after it, the lost group is a real word's, and the sentinel's group is printed as a line | rows `('zzzzzzzzzzzzzzzzzzzzzzzzz', 0)`, `('über', 1)` in word order: the only line printed is the sentinel's | every word of the store is listed, the last group flushed at the end of the scan | not executed | Listing.WordAfterSentinelIsLost | Listing.CompleteListing |
| concordance.py:179-182 | every sentence is stripped before the last one is carried over and prepended to the next chunk, so whitespace at the end of a chunk that falls inside a sentence is lost, and the words on either side are joined; the same lines are at add_data_worker.py:67-70 | the one-sentence document "quick brown" read in chunks "quick " and "brown": the carry is "quick" and the last segment is "quickbrown"; it is numbered only when rows are still buffered at the end (the first finding); here nothing is numbered | the carried sentence keeps its whitespace until it is numbered, so chunking does not change the segments | not executed | Streaming.WordsGlueAtChunkBoundary | Streaming.CarriedSegmentation |
