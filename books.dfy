/**
 * The book reader: it reads the lines of a delimited file, keeps the ones
 * that contain the filter text, parses each into a `Book`, groups the line
 * numbers by last name or by date, and lists the records in sorted key
 * order with ties in file order.
 *
 * The pure parts (delimiter detection, line parsing, grouping, sorting) are
 * functions; `BookReader` holds the state the source updates in place and
 * its methods are proved against those functions.
 */
module Books {
  import opened Strings
  import opened Ordering
  import opened BookModel

  datatype Option<T> = None | Some(value: T)

  /** The three field separators a file may use. */
  type Separator = c: char | c == '/' || c == '|' || c == ',' witness '/'

  /** `BookReader.VALID_SEPARATORS`, in the order they are tried. */
  const ValidSeparators: seq<Separator> := ['/', '|', ',']

  /** Why a read stops: a line with no known separator, or one that does not split into four fields. */
  datatype Error = UnknownDelimiter(line: string) | MalformedLine(line: string)

  datatype Result<T> = Success(value: T) | Failure(error: Error)

  datatype Outcome = Pass | Fail(error: Error)

  // ---------------------------------------------------------------------
  // Delimiter detection
  // ---------------------------------------------------------------------

  /** `seps[k]` occurs in `line` and no separator listed before it does. */
  ghost predicate FirstOccurringAt(seps: seq<Separator>, line: string, k: int) {
    0 <= k < |seps| && seps[k] in line && forall j :: 0 <= j < k ==> seps[j] !in line
  }

  /** `filter(lambda x: x in line, seps)`: the separators that occur in `line`, in list order. */
  function SeparatorsIn(seps: seq<Separator>, line: string): (r: seq<Separator>)
    ensures forall x :: x in r <==> x in seps && x in line
    ensures r != [] ==> exists k :: FirstOccurringAt(seps, line, k) && seps[k] == r[0]
  {
    if seps == [] then []
    else
      var rest := SeparatorsIn(seps[1..], line);
      if seps[0] in line then
        assert FirstOccurringAt(seps, line, 0);
        [seps[0]] + rest
      else
        assert rest != [] ==> exists k :: FirstOccurringAt(seps, line, k) && seps[k] == rest[0] by {
          if rest != [] {
            var k :| FirstOccurringAt(seps[1..], line, k) && seps[1..][k] == rest[0];
            assert FirstOccurringAt(seps, line, k + 1);
          }
        }
        rest
  }

  /**
   * The separator `_get_delimiter` picks for a line when none is cached yet:
   * the first of `ValidSeparators` that occurs in the line; a line with none
   * of them is an error.
   */
  function DetectDelimiter(line: string): (r: Result<Separator>)
    ensures r.Success? <==> exists s :: s in ValidSeparators && s in line
    ensures r.Success? ==> exists k :: FirstOccurringAt(ValidSeparators, line, k) && ValidSeparators[k] == r.value
    ensures r.Failure? ==> r.error == UnknownDelimiter(line)
  {
    var found := SeparatorsIn(ValidSeparators, line);
    if found != [] then Success(found[0]) else Failure(UnknownDelimiter(line))
  }

  /**
   * `_get_delimiter` as a function of the cached delimiter: the new cache
   * and the answer. A cached delimiter is returned without looking at the
   * line; otherwise the detected one is returned and cached, and a failed
   * detection leaves the cache empty.
   */
  function ResolveDelimiter(cached: Option<Separator>, line: string): (r: (Option<Separator>, Result<Separator>))
    ensures cached.Some? ==> r == (cached, Success(cached.value))
    ensures cached.None? ==> r.1 == DetectDelimiter(line)
    ensures r.1.Success? ==> r.0 == Some(r.1.value)
    ensures r.1.Failure? ==> r == (None, Failure(UnknownDelimiter(line)))
  {
    if cached.Some? then (cached, Success(cached.value))
    else
      match DetectDelimiter(line)
      case Success(d) => (Some(d), Success(d))
      case Failure(e) => (None, Failure(e))
  }

  // ---------------------------------------------------------------------
  // Line parsing
  // ---------------------------------------------------------------------

  /**
   * Where each canonical field (first name, last name, title, date) sits in
   * a line split on `d`: `|` lines are already in that order, `/` lines are
   * date/first/last/title, `,` lines are title,last,first,date.
   */
  function FieldOrder(d: Separator): (order: seq<nat>)
    ensures |order| == 4
    ensures forall k :: 0 <= k < 4 ==> order[k] < 4
    ensures forall j, k :: 0 <= j < k < 4 ==> order[j] != order[k]
  {
    if d == '|' then [0, 1, 2, 3]
    else if d == '/' then [1, 2, 3, 0]
    else [2, 1, 0, 3]
  }

  /**
   * `_line_process` once the delimiter `d` is known: split the raw line on
   * `d`, insist on exactly four pieces, put them in canonical order and
   * strip each one. It fails exactly when the line does not hold three
   * separators.
   */
  function ParseWith(d: Separator, line: string): (r: Result<Book>)
    ensures r.Success? <==> Count(line, d) == 3
    ensures r.Failure? ==> r.error == MalformedLine(line)
  {
    var data := Split(line, d);
    if |data| != 4 then Failure(MalformedLine(line))
    else
      var order := FieldOrder(d);
      Success(FromFields([Strip(data[order[0]]), Strip(data[order[1]]), Strip(data[order[2]]), Strip(data[order[3]])]))
  }

  /**
   * The fields of a parsed line, stripped, in canonical order: `|` lines
   * keep their order, `/` lines move the leading date to the end, `,` lines
   * swap the title and the first name.
   */
  lemma ParseWithFields(d: Separator, line: string)
    requires Count(line, d) == 3
    ensures var p, r := Split(line, d), ParseWith(d, line);
      && |p| == 4 && r.Success?
      && (d == '|' ==> r.value == Book(Strip(p[0]), Strip(p[1]), Strip(p[2]), Strip(p[3])))
      && (d == '/' ==> r.value == Book(Strip(p[1]), Strip(p[2]), Strip(p[3]), Strip(p[0])))
      && (d == ',' ==> r.value == Book(Strip(p[2]), Strip(p[1]), Strip(p[0]), Strip(p[3])))
  {
  }

  /**
   * `_line_process` as a function of the cached delimiter: the new cache and
   * the parsed record. The cache is whatever resolving the delimiter left,
   * even when the parse then fails; the parse goes through exactly when a
   * delimiter resolves and the line holds three of it; a failure names the
   * line.
   */
  function ProcessLine(cached: Option<Separator>, line: string): (r: (Option<Separator>, Result<Book>))
    ensures r.0 == ResolveDelimiter(cached, line).0
    ensures r.1.Success? <==>
      ResolveDelimiter(cached, line).1.Success? && Count(line, ResolveDelimiter(cached, line).1.value) == 3
    ensures r.1.Failure? ==> r.1.error == UnknownDelimiter(line) || r.1.error == MalformedLine(line)
  {
    var (d, found) := ResolveDelimiter(cached, line);
    match found
    case Failure(e) => (d, Failure(e))
    case Success(sep) => (d, ParseWith(sep, line))
  }

  // ---------------------------------------------------------------------
  // Collecting the records of a file
  // ---------------------------------------------------------------------

  /** The fields of a `BookReader` that reading a file changes. */
  datatype ReadState = ReadState(
    delimiter: Option<Separator>,
    dataHash: map<nat, Book>,
    lastNameHash: map<string, seq<nat>>,
    yearHash: map<string, seq<nat>>)

  /** The state of a freshly constructed reader. */
  const EmptyState := ReadState(None, map[], map[], map[])

  /** `not self.filter_func or self.filter_func(line)`: no filter, or the raw line contains it. */
  predicate Keep(filter: Option<string>, line: string) {
    filter.None? || Contains(line, filter.value)
  }

  /** The key a record is grouped under: its date when ordering by year, its last name otherwise. */
  function SortKey(b: Book, year: bool): string {
    if year then b.date else b.lastName
  }

  /** `m.setdefault(key, []).append(index)`. */
  function AppendAt(m: map<string, seq<nat>>, key: string, index: nat): map<string, seq<nat>> {
    m[key := (if key in m then m[key] else []) + [index]]
  }

  /** Store the record of line `index` and file the index under its key in the active bucket map. */
  function Record(st: ReadState, index: nat, book: Book, year: bool): ReadState {
    ReadState(
      st.delimiter,
      st.dataHash[index := book],
      if year then st.lastNameHash else AppendAt(st.lastNameHash, book.lastName, index),
      if year then AppendAt(st.yearHash, book.date, index) else st.yearHash)
  }

  /**
   * One pass of `_read_file`'s loop, for line `index`: a line the filter
   * drops changes nothing; a kept line that parses is recorded; a kept line
   * that fails leaves only the delimiter it may have cached, and stops the
   * read.
   */
  function ReadStep(st: ReadState, line: string, index: nat, filter: Option<string>, year: bool): (ReadState, Outcome) {
    if !Keep(filter, line) then (st, Pass)
    else
      var (d, parsed) := ProcessLine(st.delimiter, line);
      match parsed
      case Failure(e) => (st.(delimiter := d), Fail(e))
      case Success(book) => (Record(st.(delimiter := d), index, book, year), Pass)
  }

  /**
   * `_read_file` from line `index` on: the state after the remaining lines
   * and whether they all went through. The first line that fails to parse
   * stops the read.
   */
  function ReadFrom(st: ReadState, lines: seq<string>, index: nat, filter: Option<string>, year: bool): (ReadState, Outcome)
    requires index <= |lines|
    decreases |lines| - index
  {
    if index == |lines| then (st, Pass)
    else
      var (st', o) := ReadStep(st, lines[index], index, filter, year);
      if o.Fail? then (st', o) else ReadFrom(st', lines, index + 1, filter, year)
  }

  /** What one pass of the read loop does with a line the filter keeps. */
  lemma ReadStepKept(st: ReadState, line: string, index: nat, filter: Option<string>, year: bool)
    requires Keep(filter, line)
    ensures var (d, parsed) := ProcessLine(st.delimiter, line);
      ReadStep(st, line, index, filter, year)
        == if parsed.Failure? then (st.(delimiter := d), Fail(parsed.error))
           else (Record(st.(delimiter := d), index, parsed.value, year), Pass)
  {
  }

  /** Every index filed in a bucket has a record: the invariant a reader keeps. */
  ghost predicate Indexed(st: ReadState) {
    && (forall k, p :: k in st.yearHash && 0 <= p < |st.yearHash[k]| ==> st.yearHash[k][p] in st.dataHash)
    && (forall k, p :: k in st.lastNameHash && 0 <= p < |st.lastNameHash[k]| ==> st.lastNameHash[k][p] in st.dataHash)
  }

  lemma RecordIndexed(st: ReadState, index: nat, book: Book, year: bool)
    requires Indexed(st)
    ensures Indexed(Record(st, index, book, year))
  {
  }

  // ---------------------------------------------------------------------
  // Sorting and rendering
  // ---------------------------------------------------------------------

  /** The bucket map that `order_by_year` selects. */
  function ActiveBuckets(st: ReadState, year: bool): map<string, seq<nat>> {
    if year then st.yearHash else st.lastNameHash
  }

  /** `[line for line_list in lists for line in line_list]`. */
  function Flatten(lists: seq<seq<nat>>): (r: seq<nat>)
    ensures forall i :: i in r <==> exists p :: 0 <= p < |lists| && i in lists[p]
  {
    if lists == [] then []
    else
      var rest := Flatten(lists[1..]);
      assert forall p :: 1 <= p < |lists| ==> lists[p] == lists[1..][p - 1];
      lists[0] + rest
  }

  /** `[buckets[x] for x in keys]`. */
  function BucketLists(buckets: map<string, seq<nat>>, keys: seq<string>): (lists: seq<seq<nat>>)
    requires forall k :: k in keys ==> k in buckets
    ensures |lists| == |keys|
    ensures forall p :: 0 <= p < |keys| ==> lists[p] == buckets[keys[p]]
  {
    if keys == [] then [] else [buckets[keys[0]]] + BucketLists(buckets, keys[1..])
  }

  /**
   * `_get_sorted_lines_list` over one bucket map: the buckets in sorted key
   * order (descending with `reverse`), each bucket's indices as stored.
   * The result holds exactly the indices filed in some bucket.
   */
  function SortedIndices(buckets: map<string, seq<nat>>, reverse: bool): (r: seq<nat>)
    ensures forall i :: i in r <==> exists k :: k in buckets && i in buckets[k]
  {
    var keys := SortedKeys(buckets.Keys, reverse);
    var lists := BucketLists(buckets, keys);
    var r := Flatten(lists);
    assert forall i :: (exists k :: k in buckets && i in buckets[k]) ==> i in r by {
      forall i, k | k in buckets && i in buckets[k]
        ensures i in r
      {
        var p :| 0 <= p < |keys| && keys[p] == k;
        assert i in lists[p];
      }
    }
    r
  }

  // ---------------------------------------------------------------------
  // The reader object
  // ---------------------------------------------------------------------

  /**
   * `BookReader`. The file is given as the lines iterating over it yields
   * (each with its newline); `filterText` is `None` exactly when the source
   * has no filter function, that is, when the filter is absent or empty.
   */
  class BookReader {
    const lines: seq<string>
    const filterText: Option<string>
    const orderByYear: bool
    const reverse: bool

    var delimiter: Option<Separator>
    var lastNameHash: map<string, seq<nat>>
    var yearHash: map<string, seq<nat>>
    var dataHash: map<nat, Book>

    function State(): ReadState
      reads this
    {
      ReadState(delimiter, dataHash, lastNameHash, yearHash)
    }

    ghost predicate Valid()
      reads this
    {
      Indexed(State())
    }

    constructor (lines: seq<string>, filter: Option<string>, year: bool, reverse: bool)
      ensures this.lines == lines && orderByYear == year && this.reverse == reverse
      ensures filterText == (if filter.Some? && filter.value != "" then filter else None)
      ensures State() == EmptyState
      ensures Valid()
    {
      this.lines := lines;
      filterText := if filter.Some? && filter.value != "" then filter else None;
      orderByYear := year;
      this.reverse := reverse;
      delimiter := None;
      lastNameHash := map[];
      yearHash := map[];
      dataHash := map[];
    }

    /**
     * `_get_delimiter`: the cached delimiter if there is one, whatever the
     * line holds; otherwise the first valid separator in the line, which is
     * then cached. Nothing else changes.
     */
    method GetDelimiter(line: string) returns (r: Result<Separator>)
      modifies this`delimiter
      ensures old(delimiter).Some? ==> delimiter == old(delimiter) && r == Success(old(delimiter).value)
      ensures old(delimiter).None? ==> r == DetectDelimiter(line)
      ensures old(delimiter).None? ==> delimiter == if r.Success? then Some(r.value) else None
      ensures (delimiter, r) == ResolveDelimiter(old(delimiter), line)
    {
      if delimiter.None? {
        var found := SeparatorsIn(ValidSeparators, line);
        if found != [] {
          delimiter := Some(found[0]);
        } else {
          return Failure(UnknownDelimiter(line));
        }
      }
      r := Success(delimiter.value);
    }

    /** `_line_process`: resolve the delimiter, then parse the line with it. */
    method LineProcess(line: string) returns (r: Result<Book>)
      modifies this`delimiter
      ensures (delimiter, r) == ProcessLine(old(delimiter), line)
    {
      var d := GetDelimiter(line);
      if d.Failure? {
        return Failure(d.error);
      }
      r := ParseWith(d.value, line);
    }

    /**
     * Store a parsed record under its position and file the position under
     * the record's last name or, when ordering by year, its date.
     */
    method Store(index: nat, book: Book)
      requires Valid()
      modifies this
      ensures Valid()
      ensures State() == Record(old(State()), index, book, orderByYear)
    {
      RecordIndexed(State(), index, book, orderByYear);
      dataHash := dataHash[index := book];
      if orderByYear {
        yearHash := AppendAt(yearHash, book.date, index);
      } else {
        lastNameHash := AppendAt(lastNameHash, book.lastName, index);
      }
    }

    /**
     * The body of `_read_file`'s loop for the line at position `index`: if
     * the filter keeps it, parse it, store the record under `index` and
     * file `index` under the record's key.
     */
    method ReadLineAt(index: nat) returns (outcome: Outcome)
      requires index < |lines|
      requires Valid()
      modifies this
      ensures Valid()
      ensures (State(), outcome) == ReadStep(old(State()), lines[index], index, filterText, orderByYear)
    {
      ghost var st0 := State();
      var line := lines[index];
      if !Keep(filterText, line) {
        return Pass;
      }
      var parsed := LineProcess(line);
      ReadStepKept(st0, line, index, filterText, orderByYear);
      if parsed.Failure? {
        return Fail(parsed.error);
      }
      Store(index, parsed.value);
      outcome := Pass;
    }

    /**
     * `_read_file`: walk the lines with their 0-based positions, parse the
     * ones the filter keeps, store each record under its position and file
     * the position under the record's key; stop at the first bad line.
     */
    method ReadFile() returns (outcome: Outcome)
      requires Valid()
      modifies this
      ensures Valid()
      ensures (State(), outcome) == ReadFrom(old(State()), lines, 0, filterText, orderByYear)
    {
      var index := 0;
      while index < |lines|
        invariant 0 <= index <= |lines|
        invariant Valid()
        invariant ReadFrom(old(State()), lines, 0, filterText, orderByYear)
               == ReadFrom(State(), lines, index, filterText, orderByYear)
      {
        var o := ReadLineAt(index);
        if o.Fail? {
          return o;
        }
        index := index + 1;
      }
      outcome := Pass;
    }

    /** `_get_sorted_lines_list`: the indices of the active bucket map in sorted key order. */
    function SortedLinesList(): (r: seq<nat>)
      reads this
      ensures Valid() ==> forall i :: i in r ==> i in dataHash
    {
      SortedIndices(ActiveBuckets(State(), orderByYear), reverse)
    }

    /** `_pprint_results`, returning the lines it would print. */
    method PprintResults(lineNumbers: seq<nat>) returns (output: seq<string>)
      requires forall k :: 0 <= k < |lineNumbers| ==> lineNumbers[k] in dataHash
      ensures |output| == |lineNumbers|
      ensures forall k :: 0 <= k < |lineNumbers| ==> output[k] == Render(dataHash[lineNumbers[k]])
    {
      output := [];
      for k := 0 to |lineNumbers|
        invariant |output| == k
        invariant forall j :: 0 <= j < k ==> output[j] == Render(dataHash[lineNumbers[j]])
      {
        output := output + [Render(dataHash[lineNumbers[k]])];
      }
    }

    /** `process_file`: read, sort, render; a failed read yields its error and no output. */
    method ProcessFile() returns (r: Result<seq<string>>)
      requires Valid()
      modifies this
      ensures Valid()
      ensures var (st, o) := ReadFrom(old(State()), lines, 0, filterText, orderByYear);
        && State() == st
        && (o.Fail? ==> r == Failure(o.error))
        && (o.Pass? ==> r.Success? && |r.value| == |SortedLinesList()|)
        && (o.Pass? ==> forall k :: 0 <= k < |r.value| ==> r.value[k] == Render(dataHash[SortedLinesList()[k]]))
    {
      var outcome := ReadFile();
      if outcome.Fail? {
        return Failure(outcome.error);
      }
      var sorted := SortedLinesList();
      var output := PprintResults(sorted);
      r := Success(output);
    }
  }
}
