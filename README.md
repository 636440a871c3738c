# book_manager: the book reader, modelled in Dafny

`books.py` reads a text file of book records, one per line, in one of three
layouts that differ in their separator and field order:

- `first | last | title | date`
- `date/first/last/title`
- `title, last, first, date`

It detects the separator from the first line it keeps and caches it. It can
keep only the lines that contain a filter string. It parses each kept line
into a `BookModel` record. It files the line's position under the record's
last name or, with `--year`, its date. It then prints the records in
ascending or, with `--reverse`, descending key order.

This project models that pipeline and proves what it promises.

- `strings.dfy` (module `Strings`): the Python 2 `str` operations the reader
  uses. These are `in` on strings, `split` on one character, and `strip`
  with no argument. `Join` is the inverse of `split` (`JoinSplit`,
  `SplitJoin`); it also models the `"{}, {}, {}, {}".format(...)` rendering
  at book_model.py:12, which equals `", ".join` of the four fields.
- `ordering.dfy` (module `Ordering`): Python 2's byte-wise string order, and
  `sorted(keys, reverse=...)` over a set of distinct keys.
- `book_model.dfy` (module `BookModel`): the record, built positionally from
  a list, and its `", "`-joined rendering.
- `books.dfy` (module `Books`): delimiter detection and parsing as
  functions. It also has the read loop as a function over a snapshot of the
  reader's fields (`ReadState`, `ReadStep`, `ReadFrom`), and the sort.
  - Class `BookReader` carries the mutable fields `delimiter`, `dataHash`,
    `lastNameHash` and `yearHash`.
  - Its methods change those fields. Each method is proved to end in the
    state the matching function gives.
- `books_properties.dfy` (module `BooksProperties`): lemmas about those
  functions.
  - What a read collects, and when it goes through.
  - That the sorted list is a permutation of the kept positions, in key
    order, with ties in file order.
  - That a formatted record parses back to itself.
- `books_examples.dfy` (module `BooksExamples`): the cases of
  `test-bookreader.py` for `_get_delimiter` and `_line_process`, proved on
  the same inputs.

Modelling choices:

- **Input lines.** The file is given as the sequence of lines that iterating
  over it yields, each with its newline.
- **Separator type.** A separator is a `Separator`, a subset of `char`
  holding `/`, `|` and `,`. This makes the `else` branch at books.py:86-87
  unreachable by type.
- **Failures.** A failed parse is a `Failure` value rather than an
  exception. A failed read leaves the reader exactly as Python leaves it:
  - the records stored before the bad line stay stored;
  - the delimiter the bad line may have caused to be cached stays cached.

  `BooksProperties.ReadFileFails` states this for a fresh reader: which
  line the error names, what stays cached, and which records stay stored.
- **The filter.** It is an `Option<string>`. The constructor turns both an
  absent and an empty filter into `None`, as Python's truthiness test at
  books.py:15 does.
- **Separator order.** The `_line_process` docstring (books.py:71-73) lists
  the pipe layout first, but detection tries `/` first, in the order of
  `VALID_SEPARATORS` (books.py:9). The model follows that list, so a line
  containing both `/` and `|` is read as a `/` line
  (`BooksExamples.DetectSlashBeforePipe`).

## Model

| member | source | states |
|---|---|---|
| Books.DetectDelimiter | books.py:56-61 | a fresh reader finds a separator exactly when the line holds one of slash, pipe, comma (in that order); the one it finds is the first of that list the line holds; otherwise it fails with the line |
| BooksProperties.DetectFirst | books.py:57-59 | detection returns separator `k` if and only if the line holds it and none listed before it |
| Books.SeparatorsIn | books.py:57 | the filtered list holds exactly the listed separators that occur in the line, and its head is the first of them in list order |
| Books.ResolveDelimiter | books.py:56-62 | a cached delimiter is returned and kept whatever the line holds; otherwise the answer is the detected separator; on success the cache holds the answer; a failure leaves nothing cached and names the line |
| Books.BookReader.GetDelimiter | books.py:52-62 | with a delimiter cached, returns it for any line and changes nothing; otherwise returns the detected separator and caches it, and a failed detection leaves the cache empty |
| Books.FieldOrder | books.py:80-85 | the per-separator field order is a permutation of the positions 0..3 |
| Books.ParseWith | books.py:76-78 | parsing with a known delimiter succeeds exactly when the line holds three separators (four pieces) and otherwise fails with the line |
| Books.ParseWithFields | books.py:80-89 | a successful parse takes the stripped pieces in the separator's order: pipe 0,1,2,3; slash 1,2,3,0; comma 2,1,0,3 |
| Books.ProcessLine | books.py:76-89 | the cache is what resolving the delimiter left, even when the parse then fails; the parse goes through exactly when a delimiter resolves and the line holds three of it; a failure names the line as an unknown delimiter or a malformed line |
| Books.BookReader.LineProcess | books.py:64-89 | `_line_process` yields the new cache and the record that resolving the delimiter and parsing with it give |
| Books.BookReader.constructor | books.py:11-22 | a new reader keeps its options, has no filter for an absent or empty filter string, and has no delimiter and empty tables |
| Books.Keep | books.py:44 | no filter, or the raw line contains the filter text; its partner `BooksProperties.KeepAt` states that this is an occurrence of the filter text at some offset |
| Books.AppendAt | books.py:48 | `setdefault(key, []).append(index)`; `BooksProperties.GroupedAppend` states that it keeps the buckets grouped when the index is new and larger |
| Books.SortKey | books.py:47-50 | the key a record is filed under: its date when ordering by year, its last name otherwise; `BooksProperties.GroupedOnce` states that each record is filed under exactly this key |
| Books.Record | books.py:46-50 | stores the record under its line's index and appends the index to the active bucket map only; `Books.RecordIndexed` states that it keeps every filed index backed by a record, and `BooksProperties.GroupedAppend` and `BooksProperties.RecordCollects` that it keeps the buckets grouped in file order |
| Books.ReadStep | books.py:44-50 | one pass of `_read_file`'s loop; `BooksProperties.StepOutcome` states when it passes and what it leaves cached, and `BooksProperties.StepCollects` that a passing step keeps the collected state |
| Books.ReadFrom | books.py:43-50 | the loop of `_read_file`, stopping at the first failing kept line; `BooksProperties.ReadFileCollects`, `ReadFileSucceeds` and `ReadFileFails` state what it collects, when it passes and what a failure reports |
| Books.BookReader.Store | books.py:46-50 | storing a record puts it under its position and appends the position to the bucket of its date (year order) or last name, leaving the other map alone |
| Books.BookReader.ReadLineAt | books.py:44-50 | one pass of the loop: a dropped line changes nothing; a kept line is parsed and stored, or the pass fails, keeping only the cached delimiter |
| Books.BookReader.ReadFile | books.py:35-50 | the reader's new state and outcome are exactly those of reading the lines in order from the old state, stopping at the first bad line; every bucketed index has a record |
| Books.RecordIndexed | books.py:46-50 | storing a record keeps every bucketed index backed by a record |
| Books.ActiveBuckets | books.py:102-105 | the bucket map that `order_by_year` selects for sorting; `BooksProperties.ReadFileCollects` states that it is the only map a read fills, and `BooksProperties.PipelineOrdered` that sorting it lists every kept position once |
| Books.Flatten | books.py:107 | the flattened list holds exactly the indices of the inner lists |
| Books.BucketLists | books.py:103-105 | the list of buckets holds, at each place, the bucket of the key at that place |
| Books.SortedIndices | books.py:102-107 | the sorted list holds exactly the indices filed in some bucket |
| Books.BookReader.SortedLinesList | books.py:91-107 | every index in the sorted list has a record, so printing it cannot miss |
| Books.BookReader.PprintResults | books.py:109-114 | the output has one line per index, the rendering of that index's record |
| Books.BookReader.ProcessFile | books.py:24-33 | a failed read yields its error and no output; otherwise the renderings of the records in sorted order |
| BooksProperties.StepOutcome | books.py:44-45 | a dropped line leaves the state unchanged and passes; a kept line passes exactly when a delimiter resolves and the line holds three of it |
| BooksProperties.ReadFromStep | books.py:43-50 | proof helper: a read is its first step followed, unless that step failed, by the read of the rest |
| BooksProperties.KeptIndicesNext | books.py:43-44 | proof helper: the kept positions grow by the next position exactly when its line is kept |
| BooksProperties.GroupedAppend | books.py:48-50 | appending a new, larger index under its key keeps every bucket correct, in file order, and covering every record |
| BooksProperties.RecordCollects | books.py:45-50 | recording a kept line's parse keeps the collected-state invariant |
| BooksProperties.StepCollects | books.py:43-50 | a loop pass that goes through keeps the collected-state invariant |
| BooksProperties.ReadFileCollects | books.py:35-62 | after a read that goes through, the cached delimiter is the separator detected on the first kept line (none when no line is kept); the record keys are exactly the kept positions (with gaps for dropped lines); each record is its line parsed with that delimiter; only the bucket map that `year` selects is filled, and it files every record under its key in file order |
| BooksProperties.CachedKept | books.py:56-62 | once a delimiter is cached, the rest of a read never changes it |
| BooksProperties.FreshDelimiter | books.py:56-62 | a read with nothing cached that goes through caches the separator detected on its first kept line, and nothing when no line is kept |
| BooksProperties.GroupedOnce | books.py:47-50 | in the filled bucket map every record's index appears exactly once, under its own key |
| BooksProperties.IncreasingInjective | books.py:43 | a bucket in file order never holds an index twice |
| BooksProperties.ReadWithoutFilter | books.py:15 | with no filter, a read that goes through has a record for every position of the file |
| BooksProperties.FilterMatchingNothing | books.py:44 | a filter that no line contains gives a successful read that stores nothing |
| BooksProperties.ReadPassesCached | books.py:62 | with a delimiter cached, the rest of a read goes through exactly when every kept line holds three of it |
| BooksProperties.FreshSkip | books.py:44 | a dropped line leaves the success condition of a fresh read to the lines after it |
| BooksProperties.FreshKept | books.py:56-59 | the first kept line fixes the delimiter for itself and all later lines |
| BooksProperties.AllFourFieldsNext | books.py:76-78 | proof helper: all kept lines from here on have four fields exactly when this one (if kept) does and all later ones do |
| BooksProperties.ReadPassesFresh | books.py:43-62 | a read from a reader with no delimiter goes through exactly when no line is kept, or the first kept line holds a separator and every kept line has four fields on it |
| BooksProperties.ReadFileSucceeds | books.py:35-89 | a read on a fresh reader goes through exactly when no line is kept, or the first kept line holds a separator and every kept line splits into four fields on it |
| BooksProperties.FirstMalformedNext | books.py:43-45 | proof helper: a dropped line or a line with four fields leaves the first malformed kept line to the lines after it |
| BooksProperties.ReadFailsCached | books.py:76-78 | with a delimiter cached, a read that stops, stops at the first kept line without four fields, names it, keeps the cache, and leaves exactly the records collected before that line |
| BooksProperties.FailsUnknown | books.py:58-61 | a fresh read whose first kept line has no separator stops there, naming the line, with nothing cached or stored |
| BooksProperties.FailsMalformedFirst | books.py:76-78 | a fresh read whose first kept line has a separator but not four fields stops there, naming the line, with that separator cached |
| BooksProperties.FailsLater | books.py:43-50 | a fresh read whose first kept line goes through and that then stops, stops at the first malformed kept line with the first line's separator cached |
| BooksProperties.ReadFailsFresh | books.py:43-62 | a read with nothing cached that stops reports on its first kept line: an unknown delimiter, or the first kept line without four fields on that line's separator, with the records before it left stored |
| BooksProperties.ReadFileFails | books.py:35-89 | a read on a fresh reader that stops: either the first kept line has no separator, the error names it and nothing is cached or stored; or its separator is cached, the error names the first kept line that does not split into four fields on it, and exactly the records of the kept lines before that one stay stored and filed |
| BooksProperties.KeepAt | books.py:15 | a line is kept exactly when there is no filter or the filter text occurs in it at some offset |
| BooksProperties.FlattenCons | books.py:107 | proof helper: flattening the buckets of a key list gives the first key's bucket, then the rest |
| BooksProperties.FirstBeforeLater | books.py:103 | in strictly ordered keys the first comes before every later one |
| BooksProperties.ConcatOrdered | books.py:107 | a bucket followed by records of strictly later keys is in key order with ties in index order |
| BooksProperties.FlattenOrdered | books.py:103-107 | flattening grouped buckets in strict key order lists each record of those keys once, in key order, ties by index |
| BooksProperties.SortedIndicesOrdered | books.py:102-107 | over grouped buckets the sorted list is a permutation of the record keys, in key order (descending with `reverse`), with equal keys in ascending index order even when reversed |
| BooksProperties.PipelineOrdered | books.py:29-31 | after a read that goes through, the sorted list is a permutation of the kept positions, in key order with ties in file order |
| BooksProperties.FormatSplits | books.py:76 | a record written in a separator's layout splits back into that layout |
| BooksProperties.ParseLayout | books.py:80-89 | a line that splits into a record's layout of stripped fields parses to that record |
| BooksProperties.FormatThenParse | books.py:69-89 | a record whose fields hold no separator and no edge whitespace, written in a separator's layout, parses back to itself |
| BookModel.FromFields | book_model.py:5-9 | the record's first name, last name, title and date are items 0, 1, 2, 3 of the list |
| BookModel.Fields | book_model.py:5-9 | listing a record's four fields and building a record from them gives the record back |
| BookModel.FieldsFromFields | book_model.py:5-9 | building a record from a list and listing its fields gives the list's first four items |
| BookModel.Render | book_model.py:11-12 | the rendering is the four fields in order, joined by `", "` |
| BookModel.RenderFromFields | book_model.py:11-12 | rendering a record built from a list is its first four items joined by `", "` |
| Strings.Join | book_model.py:12 | the parts with the glue between them, which is the `"{}, {}, {}, {}".format(...)` rendering on `", "`; `BookModel.RenderFromFields` states the rendering through it, and `Strings.JoinSplit` and `Strings.SplitJoin` that it is the inverse of `split` |
| Strings.Contains | books.py:15 | `sub in s`; its partner `Strings.ContainsAt` states that it holds exactly when `sub` occurs in `s` at some offset |
| Strings.ContainsAt | books.py:15 | `sub in s` holds exactly when `sub` occurs in `s` at some offset |
| Strings.ContainsSomewhere | books.py:15 | a contained string occurs at some offset |
| Strings.OccursContains | books.py:15 | a string occurring at an offset is contained |
| Strings.ContainsEmpty | books.py:15 | every line contains the empty string |
| BooksProperties.KeepEmptyFilter | books.py:15 | an empty filter string keeps exactly the lines no filter keeps (all of them), so mapping `""` to no filter changes nothing |
| Strings.Count | books.py:77 | the separator count is at most the length, and zero exactly when the separator is absent |
| Strings.Split | books.py:76 | a split has one piece more than the line has separators |
| Strings.SplitPiecesFree | books.py:76 | no piece of a split holds the separator |
| Strings.JoinSplit | books.py:76 | joining a split on its separator gives the line back |
| Strings.SplitWithout | books.py:76 | a line without the separator splits into itself |
| Strings.SplitAfterPiece | books.py:76 | a separator-free prefix and the separator become the first piece |
| Strings.SplitJoin | books.py:76 | separator-free pieces joined and split again come back unchanged |
| Strings.TrimStartShape | books.py:89 | left-stripping drops exactly the run of leading whitespace |
| Strings.TrimEndShape | books.py:89 | right-stripping drops exactly the run of trailing whitespace |
| Strings.IsSpace | books.py:89 | the characters Python 2 `str.strip()` removes: space, tab, newline, carriage return, vertical tab and form feed; `Strings.StripShape` states that `Strip` drops exactly the runs of them at both ends |
| Strings.Strip | books.py:89 | `s.strip()`; its partner `Strings.StripShape` states what it leaves |
| Strings.StripShape | books.py:89 | `strip()` leaves the block between the leading and trailing whitespace, starting and ending with non-whitespace |
| Strings.StripTrimmed | books.py:89 | a field with no whitespace at its ends is its own strip |
| Strings.JoinExtendFirst | books.py:76 | proof helper: growing the first part of a join grows the result at its front |
| Ordering.Less | books.py:103 | Python 2 `<` on `str`, by character code with a proper prefix first; `LessIrreflexive`, `LessTransitive`, `LessTrichotomous` and `LessAsymmetric` state that it is a strict total order |
| Ordering.Before | books.py:102-105 | the key order `sorted(..., reverse=self.reverse)` produces: `Less` ascending, its converse when reversed; `Ordering.BeforeStrictTotal` states that both are strict total orders |
| Ordering.LessIrreflexive | books.py:103 | no string sorts before itself |
| Ordering.LessTransitive | books.py:103 | string order is transitive |
| Ordering.LessTrichotomous | books.py:103 | any two strings are equal or ordered one way |
| Ordering.LessAsymmetric | books.py:103 | string order is asymmetric |
| Ordering.BeforeStrictTotal | books.py:103 | ascending and descending key order are strict total orders |
| Ordering.FirstExists | books.py:103 | a non-empty key set has a first key |
| Ordering.FirstUnique | books.py:103 | the first key is unique |
| Ordering.First | books.py:103 | the first key belongs to the set and comes before every other key |
| Ordering.SortedKeys | books.py:103 | `sorted(keys, reverse=...)` lists every key exactly once, each strictly before all later ones |
| BooksExamples.DetectPipe | test-bookreader.py:46-47 | a fresh reader reads `F`-pipe-`L` as a pipe line |
| BooksExamples.DetectSlash | test-bookreader.py:49-50 | a fresh reader reads `F/L` as a `/` line |
| BooksExamples.DetectComma | test-bookreader.py:52-53 | a fresh reader reads `F,L` as a `,` line |
| BooksExamples.DetectNone | test-bookreader.py:55-57 | `F:L` has no known separator and fails |
| BooksExamples.DetectSlashBeforePipe | books.py:9 | a line holding a pipe and then a slash is read as a `/` line, the first of the list |
| BooksExamples.PipeLineParses | test-bookreader.py:11-15 | the pipe line with padded first name and a trailing newline parses to (F, L, T, D) and caches the pipe |
| BooksExamples.SlashLineParses | test-bookreader.py:27-31 | `D/F/L/T` parses to (F, L, T, D) and caches `/` |
| BooksExamples.CommaLineParses | test-bookreader.py:33-37 | `T,L,F,D` parses to (F, L, T, D) and caches `,` |
| BooksExamples.UnknownFormatLines | test-bookreader.py:17-25 | five fields fail, leaving the pipe cached, and three fields then fail with that cached delimiter |
| BooksExamples.FourPiecesParse | books.py:76-89 | a line of four separator-free pieces parses to their strips in the separator's field order |

## Left out

- `main`, `usage` and the getopt handling (books.py:117-150): command-line glue and process exit.
- `open()` and the file iteration in `_read_file` (books.py:42-43): the reader is given the lines directly.
- The `print` in `_pprint_results` (books.py:114): `PprintResults` returns the lines it would print.
- Exception classes and message text: failures are the values `UnknownDelimiter(line)` and `MalformedLine(line)`. The `Exception(message=...)` calls at books.py:61 and books.py:87 fail either way.
- The `else` branch at books.py:86-87: unreachable, because a delimiter always has the type `Separator`.
- Unicode and byte encodings: strings are sequences of characters compared by character code, which matches Python 2's byte-wise order on byte strings.
- Books.BookReader.PprintResults: `u'{}'.format(...)` at books.py:114 decodes each rendering as ASCII, so Python stops with a `UnicodeDecodeError` partway through printing at the first record holding a non-ASCII byte. The model returns every rendering and does not capture that failure.
- Books.BookReader.ProcessFile: for the same reason (books.py:114), Python stops with a `UnicodeDecodeError` partway through printing when a record holds a non-ASCII byte, while the model returns `Success` with every rendering.
- The end-to-end ordering tests in test-bookreader.py:60-94: they read a fixture file named `pipe` that is not part of this model. `PipelineOrdered` states the ordering for every input instead.
- Books.BookReader.PprintResults: requires every given index to have a record, where Python would raise a `KeyError`. `SortedLinesList` ensures that the sorted list meets this.
- BooksProperties.SortedIndicesOrdered: "permutation" is stated as the same set of indices with no index repeated, not as a multiset equality.
