/**
 * What a read, a sort and a parse of the book reader promise, proved about
 * the functions in `Books` that the reader's methods are proved against.
 */
module BooksProperties {
  import opened Strings
  import opened Ordering
  import opened BookModel
  import opened Books

  // ---------------------------------------------------------------------
  // Delimiter detection
  // ---------------------------------------------------------------------

  /** A fresh reader picks separator `k` exactly when the line holds it and none listed before it. */
  lemma DetectFirst(line: string, k: nat)
    requires k < |ValidSeparators|
    ensures DetectDelimiter(line) == Success(ValidSeparators[k]) <==> FirstOccurringAt(ValidSeparators, line, k)
  {
    if FirstOccurringAt(ValidSeparators, line, k) {
      var r := DetectDelimiter(line);
      var j :| FirstOccurringAt(ValidSeparators, line, j) && ValidSeparators[j] == r.value;
      assert j == k;
    }
  }

  // ---------------------------------------------------------------------
  // Collection
  // ---------------------------------------------------------------------

  /** The filter keeps a line exactly when there is none or its text occurs in the raw line at some offset. */
  lemma KeepAt(filter: Option<string>, line: string)
    ensures Keep(filter, line) <==> filter.None? || exists k :: OccursAt(line, filter.value, k)
  {
    if filter.Some? {
      ContainsAt(line, filter.value);
    }
  }

  /**
   * An empty filter string keeps every line, just as no filter does, so the
   * constructor's mapping of `""` to `None` changes no result.
   */
  lemma KeepEmptyFilter(line: string)
    ensures Keep(Some(""), line) == Keep(None, line)
  {
    ContainsEmpty(line);
  }

  /** The positions, among the first `n` lines, of the lines the filter keeps. */
  ghost function KeptIndices(lines: seq<string>, n: nat, filter: Option<string>): set<nat>
    requires n <= |lines|
  {
    set i: nat | i < n && Keep(filter, lines[i])
  }

  /**
   * `buckets` files the records of `data` by their key: every filed index
   * has a record whose key is the bucket's key, each bucket lists its
   * indices in increasing (file) order, and every record is filed under its
   * key.
   */
  ghost predicate Grouped(buckets: map<string, seq<nat>>, data: map<nat, Book>, year: bool) {
    && (forall k, p :: k in buckets && 0 <= p < |buckets[k]| ==>
          buckets[k][p] in data && SortKey(data[buckets[k][p]], year) == k)
    && (forall k, p, q :: k in buckets && 0 <= p < q < |buckets[k]| ==> buckets[k][p] < buckets[k][q])
    && (forall i :: i in data ==> SortKey(data[i], year) in buckets && i in buckets[SortKey(data[i], year)])
  }

  /**
   * The state after the first `n` lines were read without error, starting
   * from a fresh reader: one record per kept line, under its position,
   * parsed with the cached delimiter; only the active bucket map is filled.
   */
  ghost predicate Collected(st: ReadState, lines: seq<string>, n: nat, filter: Option<string>, year: bool)
    requires n <= |lines|
  {
    && st.dataHash.Keys == KeptIndices(lines, n, filter)
    && ParsedRecords(st.dataHash, lines, st.delimiter)
    && (if year then st.lastNameHash == map[] else st.yearHash == map[])
    && Grouped(ActiveBuckets(st, year), st.dataHash, year)
  }

  /** Filing a new, larger index keeps the buckets grouped. */
  lemma GroupedAppend(buckets: map<string, seq<nat>>, data: map<nat, Book>, year: bool, n: nat, book: Book)
    requires Grouped(buckets, data, year)
    requires forall i :: i in data ==> i < n
    ensures Grouped(AppendAt(buckets, SortKey(book, year), n), data[n := book], year)
  {
    var key := SortKey(book, year);
    var b' := AppendAt(buckets, key, n);
    var d' := data[n := book];
    forall k, p | k in b' && 0 <= p < |b'[k]|
      ensures b'[k][p] in d' && SortKey(d'[b'[k][p]], year) == k
    {
      if k == key && p == |b'[k]| - 1 {
        assert b'[k][p] == n;
      } else {
        assert k in buckets && b'[k][p] == buckets[k][p];
      }
    }
    forall k, p, q | k in b' && 0 <= p < q < |b'[k]|
      ensures b'[k][p] < b'[k][q]
    {
      if k == key && q == |b'[k]| - 1 {
        assert b'[k][p] == buckets[k][p] && buckets[k][p] in data;
      } else {
        assert k in buckets && b'[k][p] == buckets[k][p] && b'[k][q] == buckets[k][q];
      }
    }
    forall i | i in d'
      ensures SortKey(d'[i], year) in b' && i in b'[SortKey(d'[i], year)]
    {
      if i != n {
        var k := SortKey(data[i], year);
        assert i in buckets[k];
        assert buckets[k] <= b'[k];
      }
    }
  }

  /** The kept positions grow by one exactly when the next line is kept. */
  lemma KeptIndicesNext(lines: seq<string>, n: nat, filter: Option<string>)
    requires n < |lines|
    ensures KeptIndices(lines, n + 1, filter)
      == KeptIndices(lines, n, filter) + (if Keep(filter, lines[n]) then {n} else {})
  {
  }

  /** Each stored record is the parse of its line with the cached delimiter. */
  ghost predicate ParsedRecords(data: map<nat, Book>, lines: seq<string>, delimiter: Option<Separator>) {
    forall i :: i in data ==>
      i < |lines| && delimiter.Some? && ParseWith(delimiter.value, lines[i]) == Success(data[i])
  }

  /** Records parsed with the cached delimiter stay so once that delimiter is known to be `d`. */
  lemma ParsedRecordsCache(data: map<nat, Book>, lines: seq<string>, delimiter: Option<Separator>, d: Separator)
    requires ParsedRecords(data, lines, delimiter)
    requires delimiter.Some? ==> delimiter.value == d
    ensures ParsedRecords(data, lines, Some(d))
  {
    if delimiter.None? {
      assert data == map[];
    }
  }

  /** Storing the parse of one more line keeps every record the parse of its line. */
  lemma ParsedRecordsStore(data: map<nat, Book>, lines: seq<string>, n: nat, d: Separator, book: Book)
    requires ParsedRecords(data, lines, Some(d))
    requires n < |lines| && ParseWith(d, lines[n]) == Success(book)
    ensures ParsedRecords(data[n := book], lines, Some(d))
  {
    var data' := data[n := book];
    forall i | i in data'
      ensures i < |lines| && ParseWith(d, lines[i]) == Success(data'[i])
    {
      if i != n {
        assert i in data && data'[i] == data[i];
      }
    }
  }

  /** Recording the record of a kept line adds its position to the keys. */
  lemma RecordKeys(st: ReadState, lines: seq<string>, n: nat, filter: Option<string>, year: bool, book: Book)
    requires n < |lines| && Keep(filter, lines[n])
    requires st.dataHash.Keys == KeptIndices(lines, n, filter)
    ensures forall i :: i in st.dataHash ==> i < n
    ensures Record(st, n, book, year).dataHash.Keys == KeptIndices(lines, n + 1, filter)
  {
    KeptIndicesNext(lines, n, filter);
  }

  /** Recording a new, larger index keeps the buckets grouped. */
  lemma RecordGrouped(st: ReadState, n: nat, book: Book, year: bool)
    requires Grouped(ActiveBuckets(st, year), st.dataHash, year)
    requires forall i :: i in st.dataHash ==> i < n
    ensures var st' := Record(st, n, book, year);
      Grouped(ActiveBuckets(st', year), st'.dataHash, year)
  {
    var st' := Record(st, n, book, year);
    GroupedAppend(ActiveBuckets(st, year), st.dataHash, year, n, book);
    if year {
      assert st'.yearHash == AppendAt(st.yearHash, book.date, n);
    } else {
      assert st'.lastNameHash == AppendAt(st.lastNameHash, book.lastName, n);
    }
  }

  /** Recording the parse of a kept line keeps the collected state. */
  lemma RecordCollects(st: ReadState, lines: seq<string>, n: nat, filter: Option<string>, year: bool,
                       d: Separator, book: Book)
    requires n < |lines| && Keep(filter, lines[n])
    requires Collected(st, lines, n, filter, year)
    requires st.delimiter.Some? ==> st.delimiter.value == d
    requires ParseWith(d, lines[n]) == Success(book)
    ensures Collected(Record(st.(delimiter := Some(d)), n, book, year), lines, n + 1, filter, year)
  {
    var st0 := st.(delimiter := Some(d));
    RecordKeys(st0, lines, n, filter, year, book);
    ParsedRecordsCache(st.dataHash, lines, st.delimiter, d);
    ParsedRecordsStore(st.dataHash, lines, n, d, book);
    RecordGrouped(st0, n, book, year);
  }

  /** A kept line that goes through is parsed with the resolved delimiter and recorded under its position. */
  lemma StepRecords(st: ReadState, line: string, n: nat, filter: Option<string>, year: bool)
    requires Keep(filter, line)
    ensures var step, resolved := ReadStep(st, line, n, filter, year), ResolveDelimiter(st.delimiter, line);
      step.1.Pass? ==>
        && resolved.1.Success?
        && resolved.0 == Some(resolved.1.value)
        && ParseWith(resolved.1.value, line).Success?
        && step.0 == Record(st.(delimiter := resolved.0), n, ParseWith(resolved.1.value, line).value, year)
  {
    ReadStepKept(st, line, n, filter, year);
  }

  /** One pass of the read loop that goes through keeps the collected state. */
  lemma StepCollects(st: ReadState, lines: seq<string>, n: nat, filter: Option<string>, year: bool)
    requires n < |lines|
    requires Collected(st, lines, n, filter, year)
    ensures var step := ReadStep(st, lines[n], n, filter, year);
      step.1.Pass? ==> Collected(step.0, lines, n + 1, filter, year)
  {
    var line := lines[n];
    var step := ReadStep(st, line, n, filter, year);
    KeptIndicesNext(lines, n, filter);
    if Keep(filter, line) {
      StepRecords(st, line, n, filter, year);
      if step.1.Pass? {
        var d := ResolveDelimiter(st.delimiter, line).1.value;
        RecordCollects(st, lines, n, filter, year, d, ParseWith(d, line).value);
      }
    } else {
      StepOutcome(st, line, n, filter, year);
    }
  }

  lemma {:induction false} ReadFromCollects(st: ReadState, lines: seq<string>, n: nat, filter: Option<string>, year: bool)
    requires n <= |lines|
    requires Collected(st, lines, n, filter, year)
    ensures var (st', o) := ReadFrom(st, lines, n, filter, year);
      o.Pass? ==> Collected(st', lines, |lines|, filter, year)
    decreases |lines| - n
  {
    if n < |lines| {
      StepCollects(st, lines, n, filter, year);
      ReadFromStep(st, lines, n, filter, year);
      var step := ReadStep(st, lines[n], n, filter, year);
      if step.1.Pass? {
        ReadFromCollects(step.0, lines, n + 1, filter, year);
      }
    }
  }

  /**
   * A read that goes through, on a fresh reader: the records are keyed by
   * exactly the positions of the kept lines (filtered-out lines leave
   * gaps), each is the parse of its line with the cached delimiter, which
   * is the separator detected on the first kept line (nothing is cached
   * when no line is kept), only the bucket map that `year` selects is
   * filled, and it files every record once under its key, in file order.
   */
  lemma ReadFileCollects(lines: seq<string>, filter: Option<string>, year: bool)
    ensures var (st, o) := ReadFrom(EmptyState, lines, 0, filter, year);
      o.Pass? ==>
        && (forall f: nat :: FirstKept(lines, 0, filter, f) ==>
              DetectDelimiter(lines[f]).Success? && st.delimiter == Some(DetectDelimiter(lines[f]).value))
        && (NoneKept(lines, 0, filter) ==> st.delimiter == None)
        && st.dataHash.Keys == KeptIndices(lines, |lines|, filter)
        && (forall i :: i in st.dataHash ==>
              i < |lines| && st.delimiter.Some? && ParseWith(st.delimiter.value, lines[i]) == Success(st.dataHash[i]))
        && (year ==> st.lastNameHash == map[])
        && (!year ==> st.yearHash == map[])
        && Grouped(ActiveBuckets(st, year), st.dataHash, year)
  {
    assert KeptIndices(lines, 0, filter) == {};
    ReadFromCollects(EmptyState, lines, 0, filter, year);
    FreshDelimiter(EmptyState, lines, 0, filter, year);
  }

  /** Once a delimiter is cached, the rest of a read leaves it as it is. */
  lemma {:induction false} CachedKept(st: ReadState, lines: seq<string>, n: nat, filter: Option<string>, year: bool)
    requires n <= |lines|
    requires st.delimiter.Some?
    ensures ReadFrom(st, lines, n, filter, year).0.delimiter == st.delimiter
    decreases |lines| - n
  {
    if n < |lines| {
      var step := ReadStep(st, lines[n], n, filter, year);
      StepOutcome(st, lines[n], n, filter, year);
      ReadFromStep(st, lines, n, filter, year);
      if step.1.Pass? {
        CachedKept(step.0, lines, n + 1, filter, year);
      }
    }
  }

  /**
   * A read with no delimiter cached that goes through from line `n` on
   * caches the separator detected on the first kept line, or nothing when
   * no line is kept.
   */
  lemma {:induction false} FreshDelimiter(st: ReadState, lines: seq<string>, n: nat, filter: Option<string>, year: bool)
    requires n <= |lines|
    requires st.delimiter.None?
    ensures var (st', o) := ReadFrom(st, lines, n, filter, year);
      o.Pass? ==>
        && (forall f: nat :: FirstKept(lines, n, filter, f) ==>
              DetectDelimiter(lines[f]).Success? && st'.delimiter == Some(DetectDelimiter(lines[f]).value))
        && (NoneKept(lines, n, filter) ==> st'.delimiter == None)
    decreases |lines| - n
  {
    if n < |lines| {
      var line := lines[n];
      var step := ReadStep(st, line, n, filter, year);
      StepOutcome(st, line, n, filter, year);
      ReadFromStep(st, lines, n, filter, year);
      if !Keep(filter, line) {
        FreshDelimiter(st, lines, n + 1, filter, year);
        assert NoneKept(lines, n, filter) <==> NoneKept(lines, n + 1, filter);
        assert forall f: nat :: FirstKept(lines, n, filter, f) ==> FirstKept(lines, n + 1, filter, f);
      } else if step.1.Pass? {
        assert step.0.delimiter == Some(DetectDelimiter(line).value);
        CachedKept(step.0, lines, n + 1, filter, year);
        assert !NoneKept(lines, n, filter);
        assert forall f: nat :: FirstKept(lines, n, filter, f) ==> f == n;
      }
    }
  }

  /** In a grouped bucket map each record's index is filed exactly once, under its own key. */
  lemma GroupedOnce(buckets: map<string, seq<nat>>, data: map<nat, Book>, year: bool, i: nat)
    requires Grouped(buckets, data, year)
    requires i in data
    ensures exists p :: 0 <= p < |buckets[SortKey(data[i], year)]| && buckets[SortKey(data[i], year)][p] == i
    ensures forall k, p, q ::
      (k in buckets && 0 <= p < |buckets[k]| && 0 <= q < |buckets[k]| && buckets[k][p] == i && buckets[k][q] == i)
      ==> k == SortKey(data[i], year) && p == q
  {
    var k := SortKey(data[i], year);
    assert i in buckets[k];
    forall k', p, q | k' in buckets && 0 <= p < |buckets[k']| && 0 <= q < |buckets[k']|
        && buckets[k'][p] == i && buckets[k'][q] == i
      ensures k' == k && p == q
    {
      IncreasingInjective(buckets[k']);
    }
  }

  /** A strictly increasing sequence holds each value at most once. */
  lemma IncreasingInjective(s: seq<nat>)
    requires forall p, q :: 0 <= p < q < |s| ==> s[p] < s[q]
    ensures forall p, q :: 0 <= p < |s| && 0 <= q < |s| && s[p] == s[q] ==> p == q
  {
  }

  /** With no filter every line is kept: a read that goes through has a record for every position. */
  lemma ReadWithoutFilter(lines: seq<string>, year: bool)
    ensures var (st, o) := ReadFrom(EmptyState, lines, 0, None, year);
      o.Pass? ==> forall i: nat :: i in st.dataHash <==> i < |lines|
  {
    ReadFileCollects(lines, None, year);
  }

  lemma {:induction false} NothingKeptFrom(st: ReadState, lines: seq<string>, n: nat, filter: Option<string>, year: bool)
    requires n <= |lines|
    requires forall i :: n <= i < |lines| ==> !Keep(filter, lines[i])
    ensures ReadFrom(st, lines, n, filter, year) == (st, Pass)
    decreases |lines| - n
  {
    if n < |lines| {
      NothingKeptFrom(st, lines, n + 1, filter, year);
    }
  }

  /** A filter that no line contains gives a read that goes through and collects nothing. */
  lemma FilterMatchingNothing(lines: seq<string>, filter: Option<string>, year: bool)
    requires forall i :: 0 <= i < |lines| ==> !Keep(filter, lines[i])
    ensures ReadFrom(EmptyState, lines, 0, filter, year) == (EmptyState, Pass)
  {
    NothingKeptFrom(EmptyState, lines, 0, filter, year);
  }

  // ---------------------------------------------------------------------
  // When a read goes through
  // ---------------------------------------------------------------------

  /** Every kept line from position `n` on splits into four fields on `d`. */
  ghost predicate AllFourFields(lines: seq<string>, n: nat, filter: Option<string>, d: Separator) {
    forall i :: n <= i < |lines| && Keep(filter, lines[i]) ==> Count(lines[i], d) == 3
  }

  /** No line from position `n` on is kept. */
  ghost predicate NoneKept(lines: seq<string>, n: nat, filter: Option<string>) {
    forall i :: n <= i < |lines| ==> !Keep(filter, lines[i])
  }

  /** Line `f` is the first kept line from position `n` on. */
  ghost predicate FirstKept(lines: seq<string>, n: nat, filter: Option<string>, f: nat) {
    n <= f < |lines| && Keep(filter, lines[f]) && forall i :: n <= i < f ==> !Keep(filter, lines[i])
  }

  /**
   * One pass of the read loop: a dropped line changes nothing; a kept line
   * leaves the delimiter `_get_delimiter` settles on, and goes through
   * exactly when a delimiter is found and the line holds three of it.
   */
  lemma StepOutcome(st: ReadState, line: string, n: nat, filter: Option<string>, year: bool)
    ensures var step, resolved := ReadStep(st, line, n, filter, year), ResolveDelimiter(st.delimiter, line);
      && (!Keep(filter, line) ==> step == (st, Pass))
      && (Keep(filter, line) ==> step.0.delimiter == resolved.0)
      && (Keep(filter, line) ==>
            (step.1.Pass? <==> resolved.1.Success? && Count(line, resolved.1.value) == 3))
  {
    if Keep(filter, line) {
      ReadStepKept(st, line, n, filter, year);
    }
  }

  /** A read from line `n` on: the first step, then the rest unless the step failed. */
  lemma ReadFromStep(st: ReadState, lines: seq<string>, n: nat, filter: Option<string>, year: bool)
    requires n < |lines|
    ensures var step := ReadStep(st, lines[n], n, filter, year);
      ReadFrom(st, lines, n, filter, year)
        == if step.1.Fail? then step else ReadFrom(step.0, lines, n + 1, filter, year)
  {
  }

  /** With a delimiter cached, the rest of the read goes through exactly when every kept line has four fields. */
  lemma {:induction false} ReadPassesCached(st: ReadState, lines: seq<string>, n: nat, filter: Option<string>, year: bool)
    requires n <= |lines|
    requires st.delimiter.Some?
    ensures ReadFrom(st, lines, n, filter, year).1.Pass? <==> AllFourFields(lines, n, filter, st.delimiter.value)
    decreases |lines| - n
  {
    if n < |lines| {
      var d := st.delimiter.value;
      var step := ReadStep(st, lines[n], n, filter, year);
      StepOutcome(st, lines[n], n, filter, year);
      ReadFromStep(st, lines, n, filter, year);
      assert step.0.delimiter == st.delimiter;
      ReadPassesCached(step.0, lines, n + 1, filter, year);
      AllFourFieldsNext(lines, n, filter, d);
    }
  }

  /**
   * The condition under which a read that has no delimiter yet goes through
   * from line `n` on: no line is kept, or the first kept line holds a valid
   * separator and every kept line splits into four fields on it.
   */
  ghost predicate FreshPasses(lines: seq<string>, n: nat, filter: Option<string>) {
    || NoneKept(lines, n, filter)
    || exists f: nat :: FirstKept(lines, n, filter, f) && DetectDelimiter(lines[f]).Success?
                   && AllFourFields(lines, f, filter, DetectDelimiter(lines[f]).value)
  }

  /** A dropped line leaves the condition to the lines after it. */
  lemma FreshSkip(lines: seq<string>, n: nat, filter: Option<string>)
    requires n < |lines| && !Keep(filter, lines[n])
    ensures FreshPasses(lines, n, filter) <==> FreshPasses(lines, n + 1, filter)
  {
    assert NoneKept(lines, n, filter) <==> NoneKept(lines, n + 1, filter);
    assert forall f: nat :: FirstKept(lines, n, filter, f) <==> FirstKept(lines, n + 1, filter, f);
  }

  /** A kept line settles the delimiter for itself and every line after it. */
  lemma FreshKept(lines: seq<string>, n: nat, filter: Option<string>)
    requires n < |lines| && Keep(filter, lines[n])
    ensures FreshPasses(lines, n, filter) <==>
      DetectDelimiter(lines[n]).Success? && AllFourFields(lines, n, filter, DetectDelimiter(lines[n]).value)
  {
    assert !NoneKept(lines, n, filter);
    assert FirstKept(lines, n, filter, n);
    assert forall f: nat :: FirstKept(lines, n, filter, f) ==> f == n;
  }

  /** Four fields from line `n` on: line `n`, if kept, and the lines after it. */
  lemma AllFourFieldsNext(lines: seq<string>, n: nat, filter: Option<string>, d: Separator)
    requires n < |lines|
    ensures AllFourFields(lines, n, filter, d) <==>
      (Keep(filter, lines[n]) ==> Count(lines[n], d) == 3) && AllFourFields(lines, n + 1, filter, d)
  {
  }

  lemma {:induction false} ReadPassesFresh(st: ReadState, lines: seq<string>, n: nat, filter: Option<string>, year: bool)
    requires n <= |lines|
    requires st.delimiter.None?
    ensures ReadFrom(st, lines, n, filter, year).1.Pass? <==> FreshPasses(lines, n, filter)
    decreases |lines| - n
  {
    if n < |lines| {
      var line := lines[n];
      var step := ReadStep(st, line, n, filter, year);
      StepOutcome(st, line, n, filter, year);
      ReadFromStep(st, lines, n, filter, year);
      if !Keep(filter, line) {
        ReadPassesFresh(st, lines, n + 1, filter, year);
        FreshSkip(lines, n, filter);
      } else {
        FreshKept(lines, n, filter);
        var found := DetectDelimiter(line);
        if found.Success? {
          var d := found.value;
          assert ResolveDelimiter(st.delimiter, line) == (Some(d), Success(d));
          AllFourFieldsNext(lines, n, filter, d);
          if step.1.Pass? {
            ReadPassesCached(step.0, lines, n + 1, filter, year);
          }
        }
      }
    }
  }

  /**
   * A read on a fresh reader fails fast, and goes through exactly when no
   * line is kept, or the first kept line holds a valid separator and every
   * kept line splits into four fields on that separator.
   */
  lemma ReadFileSucceeds(lines: seq<string>, filter: Option<string>, year: bool)
    ensures ReadFrom(EmptyState, lines, 0, filter, year).1.Pass? <==> FreshPasses(lines, 0, filter)
  {
    ReadPassesFresh(EmptyState, lines, 0, filter, year);
  }

  // ---------------------------------------------------------------------
  // When a read stops
  // ---------------------------------------------------------------------

  /** Line `j` is the first kept line from position `n` on that does not split into four fields on `d`. */
  ghost predicate FirstMalformed(lines: seq<string>, n: nat, filter: Option<string>, d: Separator, j: nat) {
    && n <= j < |lines| && Keep(filter, lines[j]) && Count(lines[j], d) != 3
    && forall i :: n <= i < j && Keep(filter, lines[i]) ==> Count(lines[i], d) == 3
  }

  /**
   * What a read that stops at a bad line reports and leaves behind, given
   * that line `f` is the first kept line: with no separator in line `f`,
   * the error names that line and nothing is cached or stored; otherwise
   * the separator of line `f` is cached, the error names the first kept
   * line `j` that does not split into four fields on it, and the state is
   * the one collected from the lines before `j`.
   */
  ghost predicate FailureReport(st: ReadState, o: Outcome, lines: seq<string>, f: nat, filter: Option<string>, year: bool)
    requires f < |lines|
  {
    var found := DetectDelimiter(lines[f]);
    && (found.Failure? ==>
          && o == Fail(UnknownDelimiter(lines[f])) && st.delimiter == None && st.dataHash == map[]
          && Collected(st, lines, f, filter, year))
    && (found.Success? ==>
          exists j: nat :: && FirstMalformed(lines, f, filter, found.value, j)
                           && o == Fail(MalformedLine(lines[j]))
                           && st.delimiter == Some(found.value)
                           && Collected(st, lines, j, filter, year))
  }

  /** A dropped line or a line with four fields leaves the first malformed line to the lines after it. */
  lemma FirstMalformedNext(lines: seq<string>, n: nat, filter: Option<string>, d: Separator, j: nat)
    requires n < |lines| && (Keep(filter, lines[n]) ==> Count(lines[n], d) == 3)
    requires FirstMalformed(lines, n + 1, filter, d, j)
    ensures FirstMalformed(lines, n, filter, d, j)
  {
  }

  /** With the delimiter cached, a read that stops, stops at the first malformed kept line. */
  lemma {:induction false} ReadFailsCached(st: ReadState, lines: seq<string>, n: nat, filter: Option<string>, year: bool)
    requires n <= |lines|
    requires st.delimiter.Some?
    requires Collected(st, lines, n, filter, year)
    requires ReadFrom(st, lines, n, filter, year).1.Fail?
    ensures var r, d := ReadFrom(st, lines, n, filter, year), st.delimiter.value;
      exists j: nat :: && FirstMalformed(lines, n, filter, d, j)
                       && r.1 == Fail(MalformedLine(lines[j]))
                       && r.0.delimiter == Some(d)
                       && Collected(r.0, lines, j, filter, year)
    decreases |lines| - n
  {
    var line, d := lines[n], st.delimiter.value;
    var step := ReadStep(st, line, n, filter, year);
    StepOutcome(st, line, n, filter, year);
    ReadFromStep(st, lines, n, filter, year);
    StepCollects(st, lines, n, filter, year);
    if Keep(filter, line) && Count(line, d) != 3 {
      ReadStepKept(st, line, n, filter, year);
      assert step == (st, Fail(MalformedLine(line)));
      assert FirstMalformed(lines, n, filter, d, n);
    } else {
      assert step.1.Pass? && step.0.delimiter == st.delimiter;
      ReadFailsCached(step.0, lines, n + 1, filter, year);
      var r := ReadFrom(step.0, lines, n + 1, filter, year);
      var j: nat :| && FirstMalformed(lines, n + 1, filter, d, j)
                    && r.1 == Fail(MalformedLine(lines[j]))
                    && r.0.delimiter == Some(d)
                    && Collected(r.0, lines, j, filter, year);
      FirstMalformedNext(lines, n, filter, d, j);
    }
  }

  /** A fresh read that stops at its first kept line: the report for an unknown separator. */
  lemma FailsUnknown(st: ReadState, lines: seq<string>, n: nat, filter: Option<string>, year: bool)
    requires n < |lines| && Keep(filter, lines[n])
    requires st.delimiter.None? && Collected(st, lines, n, filter, year)
    requires DetectDelimiter(lines[n]).Failure?
    ensures var step := ReadStep(st, lines[n], n, filter, year);
      step.1.Fail? && FailureReport(step.0, step.1, lines, n, filter, year)
  {
    ReadStepKept(st, lines[n], n, filter, year);
    assert st.dataHash == map[];
  }

  /** A fresh read that stops at its first kept line: the report for a line that does not split into four. */
  lemma FailsMalformedFirst(st: ReadState, lines: seq<string>, n: nat, filter: Option<string>, year: bool)
    requires n < |lines| && Keep(filter, lines[n])
    requires st.delimiter.None? && Collected(st, lines, n, filter, year)
    requires DetectDelimiter(lines[n]).Success? && Count(lines[n], DetectDelimiter(lines[n]).value) != 3
    ensures var step := ReadStep(st, lines[n], n, filter, year);
      step.1.Fail? && FailureReport(step.0, step.1, lines, n, filter, year)
  {
    var d := DetectDelimiter(lines[n]).value;
    ReadStepKept(st, lines[n], n, filter, year);
    var st' := st.(delimiter := Some(d));
    ParsedRecordsCache(st.dataHash, lines, st.delimiter, d);
    assert Collected(st', lines, n, filter, year);
    assert FirstMalformed(lines, n, filter, d, n);
  }

  /** A first kept line that goes through hands the cached delimiter to the rest of the read. */
  lemma FailsLater(st: ReadState, lines: seq<string>, n: nat, filter: Option<string>, year: bool)
    requires n < |lines| && Keep(filter, lines[n])
    requires st.delimiter.None? && Collected(st, lines, n, filter, year)
    requires DetectDelimiter(lines[n]).Success? && Count(lines[n], DetectDelimiter(lines[n]).value) == 3
    requires ReadFrom(st, lines, n, filter, year).1.Fail?
    ensures var r := ReadFrom(st, lines, n, filter, year);
      FailureReport(r.0, r.1, lines, n, filter, year)
  {
    var d := DetectDelimiter(lines[n]).value;
    var step := ReadStep(st, lines[n], n, filter, year);
    StepOutcome(st, lines[n], n, filter, year);
    ReadFromStep(st, lines, n, filter, year);
    StepCollects(st, lines, n, filter, year);
    assert step.1.Pass? && step.0.delimiter == Some(d);
    ReadFailsCached(step.0, lines, n + 1, filter, year);
    var r := ReadFrom(step.0, lines, n + 1, filter, year);
    var j: nat :| && FirstMalformed(lines, n + 1, filter, d, j)
                  && r.1 == Fail(MalformedLine(lines[j]))
                  && r.0.delimiter == Some(d)
                  && Collected(r.0, lines, j, filter, year);
    FirstMalformedNext(lines, n, filter, d, j);
  }

  /** With no delimiter cached, a read that stops reports on its first kept line as `FailureReport` says. */
  lemma {:induction false} ReadFailsFresh(st: ReadState, lines: seq<string>, n: nat, filter: Option<string>, year: bool)
    requires n <= |lines|
    requires st.delimiter.None?
    requires Collected(st, lines, n, filter, year)
    requires ReadFrom(st, lines, n, filter, year).1.Fail?
    ensures var r := ReadFrom(st, lines, n, filter, year);
      exists f: nat :: FirstKept(lines, n, filter, f) && FailureReport(r.0, r.1, lines, f, filter, year)
    decreases |lines| - n
  {
    var line := lines[n];
    var step := ReadStep(st, line, n, filter, year);
    StepOutcome(st, line, n, filter, year);
    ReadFromStep(st, lines, n, filter, year);
    if !Keep(filter, line) {
      StepCollects(st, lines, n, filter, year);
      ReadFailsFresh(st, lines, n + 1, filter, year);
      var r := ReadFrom(st, lines, n + 1, filter, year);
      var f: nat :| FirstKept(lines, n + 1, filter, f) && FailureReport(r.0, r.1, lines, f, filter, year);
      assert FirstKept(lines, n, filter, f);
    } else {
      assert FirstKept(lines, n, filter, n);
      var found := DetectDelimiter(line);
      if found.Failure? {
        FailsUnknown(st, lines, n, filter, year);
      } else if Count(line, found.value) != 3 {
        FailsMalformedFirst(st, lines, n, filter, year);
      } else {
        FailsLater(st, lines, n, filter, year);
      }
    }
  }

  /**
   * A read on a fresh reader that stops: its first kept line `f` either has
   * no separator, and the error names it and nothing is stored or cached,
   * or its separator is cached and the error names the first kept line `j`
   * that does not split into four fields on it, with exactly the records of
   * the kept lines before `j` left stored and filed.
   */
  lemma ReadFileFails(lines: seq<string>, filter: Option<string>, year: bool)
    requires ReadFrom(EmptyState, lines, 0, filter, year).1.Fail?
    ensures var r := ReadFrom(EmptyState, lines, 0, filter, year);
      exists f: nat :: FirstKept(lines, 0, filter, f) && FailureReport(r.0, r.1, lines, f, filter, year)
  {
    assert KeptIndices(lines, 0, filter) == {};
    ReadFailsFresh(EmptyState, lines, 0, filter, year);
  }

  // ---------------------------------------------------------------------
  // Sorting
  // ---------------------------------------------------------------------

  /**
   * `r` lists records of `data` in key order: no index twice, keys never
   * step backwards (in the direction `reverse` picks), and records sharing
   * a key appear in increasing index order, whatever the direction.
   */
  ghost predicate KeyOrdered(r: seq<nat>, data: map<nat, Book>, year: bool, reverse: bool) {
    && (forall p :: 0 <= p < |r| ==> r[p] in data)
    && (forall p, q :: 0 <= p < q < |r| ==> r[p] != r[q])
    && (forall p, q :: 0 <= p < q < |r| ==>
          var a, b := SortKey(data[r[p]], year), SortKey(data[r[q]], year);
          (a == b ==> r[p] < r[q]) && (a != b ==> Before(a, b, reverse)))
  }

  /** A bucket of key `k0`, in index order, put before records whose keys all come after `k0`. */
  lemma ConcatOrdered(first: seq<nat>, rest: seq<nat>, data: map<nat, Book>, year: bool, reverse: bool,
                      k0: string, later: seq<string>)
    requires forall p :: 0 <= p < |first| ==> first[p] in data && SortKey(data[first[p]], year) == k0
    requires forall p, q :: 0 <= p < q < |first| ==> first[p] < first[q]
    requires KeyOrdered(rest, data, year, reverse)
    requires forall p :: 0 <= p < |rest| ==> SortKey(data[rest[p]], year) in later
    requires forall k :: k in later ==> Before(k0, k, reverse)
    ensures KeyOrdered(first + rest, data, year, reverse)
  {
    var r := first + rest;
    forall p, q | 0 <= p < q < |r|
      ensures r[p] != r[q]
      ensures var a, b := SortKey(data[r[p]], year), SortKey(data[r[q]], year);
        (a == b ==> r[p] < r[q]) && (a != b ==> Before(a, b, reverse))
    {
      if q < |first| {
        assert r[p] == first[p] && r[q] == first[q];
      } else if p < |first| {
        assert r[p] == first[p] && r[q] == rest[q - |first|];
        var b := SortKey(data[r[q]], year);
        assert b in later;
        BeforeStrictTotal(k0, b, b, reverse);
      } else {
        assert r[p] == rest[p - |first|] && r[q] == rest[q - |first|];
      }
    }
  }

  /** Flattening the buckets of a key list: the first key's bucket, then the rest. */
  lemma FlattenCons(buckets: map<string, seq<nat>>, keys: seq<string>)
    requires keys != [] && forall k :: k in keys ==> k in buckets
    ensures Flatten(BucketLists(buckets, keys))
      == buckets[keys[0]] + Flatten(BucketLists(buckets, keys[1..]))
  {
    assert BucketLists(buckets, keys)[1..] == BucketLists(buckets, keys[1..]);
  }

  /** Keys listed in strictly increasing order: the first one comes before all later ones. */
  lemma FirstBeforeLater(keys: seq<string>, reverse: bool)
    requires keys != []
    requires forall p, q :: 0 <= p < q < |keys| ==> Before(keys[p], keys[q], reverse)
    ensures forall k :: k in keys[1..] ==> Before(keys[0], k, reverse)
    ensures forall p, q :: 0 <= p < q < |keys[1..]| ==> Before(keys[1..][p], keys[1..][q], reverse)
  {
    forall k | k in keys[1..]
      ensures Before(keys[0], k, reverse)
    {
      var j :| 0 <= j < |keys[1..]| && keys[1..][j] == k;
      assert keys[j + 1] == k;
    }
  }

  lemma {:induction false} FlattenOrdered(buckets: map<string, seq<nat>>, data: map<nat, Book>, year: bool, reverse: bool,
                                          keys: seq<string>)
    requires Grouped(buckets, data, year)
    requires forall k :: k in keys ==> k in buckets
    requires forall p, q :: 0 <= p < q < |keys| ==> Before(keys[p], keys[q], reverse)
    ensures var r := Flatten(BucketLists(buckets, keys));
      && KeyOrdered(r, data, year, reverse)
      && (forall i :: i in r ==> i in data && SortKey(data[i], year) in keys)
      && (forall i :: i in data && SortKey(data[i], year) in keys ==> i in r)
  {
    if keys != [] {
      var k0, later := keys[0], keys[1..];
      var first := buckets[k0];
      FirstBeforeLater(keys, reverse);
      FlattenOrdered(buckets, data, year, reverse, later);
      var rest := Flatten(BucketLists(buckets, later));
      FlattenCons(buckets, keys);
      assert forall p :: 0 <= p < |rest| ==> rest[p] in rest;
      ConcatOrdered(first, rest, data, year, reverse, k0, later);
      assert forall i :: i in first ==> i in data && SortKey(data[i], year) == k0;
      forall i | i in data && SortKey(data[i], year) in keys
        ensures i in first + rest
      {
        if SortKey(data[i], year) == k0 {
          assert i in first;
        } else {
          assert SortKey(data[i], year) in later;
        }
      }
    }
  }

  /**
   * `_get_sorted_lines_list` over grouped buckets returns every record's
   * index exactly once, in key order (descending with `reverse`), with equal
   * keys in ascending index order even when `reverse` is set.
   */
  lemma SortedIndicesOrdered(buckets: map<string, seq<nat>>, data: map<nat, Book>, year: bool, reverse: bool)
    requires Grouped(buckets, data, year)
    ensures var r := SortedIndices(buckets, reverse);
      && (forall i :: i in r <==> i in data)
      && KeyOrdered(r, data, year, reverse)
  {
    var keys := SortedKeys(buckets.Keys, reverse);
    FlattenOrdered(buckets, data, year, reverse, keys);
  }

  /**
   * The whole pipeline on a fresh reader: after a read that goes through,
   * the sorted list is a permutation of the positions of the kept lines,
   * in key order with ties in file order.
   */
  lemma PipelineOrdered(lines: seq<string>, filter: Option<string>, year: bool, reverse: bool)
    requires ReadFrom(EmptyState, lines, 0, filter, year).1.Pass?
    ensures var st := ReadFrom(EmptyState, lines, 0, filter, year).0;
      var r := SortedIndices(ActiveBuckets(st, year), reverse);
      && (forall i :: i in r <==> i in KeptIndices(lines, |lines|, filter))
      && KeyOrdered(r, st.dataHash, year, reverse)
  {
    var st := ReadFrom(EmptyState, lines, 0, filter, year).0;
    ReadFileCollects(lines, filter, year);
    SortedIndicesOrdered(ActiveBuckets(st, year), st.dataHash, year, reverse);
  }

  // ---------------------------------------------------------------------
  // Parsing
  // ---------------------------------------------------------------------

  /**
   * The fields of a record in the order a file with separator `d` writes
   * them: `|` first|last|title|date, `/` date/first/last/title,
   * `,` title,last,first,date.
   */
  function Layout(d: Separator, b: Book): seq<string> {
    if d == '|' then Fields(b)
    else if d == '/' then [b.date, b.firstName, b.lastName, b.title]
    else [b.title, b.lastName, b.firstName, b.date]
  }

  /** A record written as one line of a file with separator `d`. */
  function Format(d: Separator, b: Book): string {
    Join(Layout(d, b), [d])
  }

  /** A field a line can carry unchanged: no separator in it and no whitespace at its ends. */
  predicate CleanField(s: string, d: Separator) {
    d !in s && (s != [] ==> !IsSpace(s[0]) && !IsSpace(s[|s| - 1]))
  }

  /** Splitting a formatted line gives back its layout. */
  lemma FormatSplits(d: Separator, b: Book)
    requires CleanField(b.firstName, d) && CleanField(b.lastName, d)
    requires CleanField(b.title, d) && CleanField(b.date, d)
    ensures Split(Format(d, b), d) == Layout(d, b)
  {
    SplitJoin(Layout(d, b), d);
  }

  /** A line that splits into a record's layout of already-stripped fields parses to that record. */
  lemma ParseLayout(d: Separator, line: string, b: Book)
    requires Split(line, d) == Layout(d, b)
    requires Strip(b.firstName) == b.firstName && Strip(b.lastName) == b.lastName
    requires Strip(b.title) == b.title && Strip(b.date) == b.date
    ensures ParseWith(d, line) == Success(b)
  {
    ParseWithFields(d, line);
  }

  /** Parsing undoes the per-separator layout: a record with clean fields survives a format/parse round trip. */
  lemma FormatThenParse(d: Separator, b: Book)
    requires CleanField(b.firstName, d) && CleanField(b.lastName, d)
    requires CleanField(b.title, d) && CleanField(b.date, d)
    ensures ParseWith(d, Format(d, b)) == Success(b)
  {
    FormatSplits(d, b);
    StripTrimmed(b.firstName);
    StripTrimmed(b.lastName);
    StripTrimmed(b.title);
    StripTrimmed(b.date);
    ParseLayout(d, Format(d, b), b);
  }
}
