/**
 * Python 2 compares `str` values byte by byte: the first position where two
 * strings differ decides, and a proper prefix comes first. Strings here are
 * sequences of characters, compared by character code. `sorted(keys)` and
 * `sorted(keys, reverse=True)` over a set of distinct keys are modelled by
 * `SortedKeys`.
 */
module Ordering {

  /** `a < b` on Python 2 strings. */
  predicate Less(a: string, b: string) {
    if a == [] then b != []
    else if b == [] then false
    else if a[0] != b[0] then a[0] < b[0]
    else Less(a[1..], b[1..])
  }

  lemma {:induction false} LessIrreflexive(a: string)
    ensures !Less(a, a)
  {
    if a != [] {
      LessIrreflexive(a[1..]);
    }
  }

  lemma {:induction false} LessTransitive(a: string, b: string, c: string)
    requires Less(a, b) && Less(b, c)
    ensures Less(a, c)
  {
    if a != [] && b != [] && c != [] && a[0] == b[0] && b[0] == c[0] {
      LessTransitive(a[1..], b[1..], c[1..]);
    }
  }

  lemma {:induction false} LessTrichotomous(a: string, b: string)
    ensures a == b || Less(a, b) || Less(b, a)
  {
    if a != [] && b != [] && a[0] == b[0] {
      LessTrichotomous(a[1..], b[1..]);
      if a[1..] == b[1..] {
        assert a == [a[0]] + a[1..] && b == [b[0]] + b[1..];
      }
    }
  }

  lemma {:induction false} LessAsymmetric(a: string, b: string)
    requires Less(a, b)
    ensures !Less(b, a)
  {
    if a != [] && b != [] && a[0] == b[0] {
      LessAsymmetric(a[1..], b[1..]);
    }
  }

  /** Key `a` comes strictly before key `b` in ascending or, with `reverse`, descending order. */
  predicate Before(a: string, b: string, reverse: bool) {
    if reverse then Less(b, a) else Less(a, b)
  }

  /** `Before` is a strict total order, in either direction. */
  lemma BeforeStrictTotal(a: string, b: string, c: string, reverse: bool)
    ensures !Before(a, a, reverse)
    ensures Before(a, b, reverse) ==> !Before(b, a, reverse)
    ensures Before(a, b, reverse) && Before(b, c, reverse) ==> Before(a, c, reverse)
    ensures a == b || Before(a, b, reverse) || Before(b, a, reverse)
  {
    LessIrreflexive(a);
    LessTrichotomous(a, b);
    if Less(a, b) { LessAsymmetric(a, b); }
    if Less(b, a) { LessAsymmetric(b, a); }
    if Less(a, b) && Less(b, c) { LessTransitive(a, b, c); }
    if Less(c, b) && Less(b, a) { LessTransitive(c, b, a); }
  }

  /** `m` is the key of `keys` that comes before every other one. */
  predicate IsFirst(m: string, keys: set<string>, reverse: bool) {
    m in keys && forall y :: y in keys && y != m ==> Before(m, y, reverse)
  }

  lemma {:induction false} FirstExists(keys: set<string>, reverse: bool)
    requires keys != {}
    ensures exists m :: IsFirst(m, keys, reverse)
    decreases keys
  {
    var x :| x in keys;
    if keys == {x} {
      assert IsFirst(x, keys, reverse);
    } else {
      var rest := keys - {x};
      FirstExists(rest, reverse);
      var m :| IsFirst(m, rest, reverse);
      BeforeStrictTotal(x, m, m, reverse);
      if Before(x, m, reverse) {
        forall y | y in keys && y != x
          ensures Before(x, y, reverse)
        {
          BeforeStrictTotal(x, m, y, reverse);
        }
        assert IsFirst(x, keys, reverse);
      } else {
        assert IsFirst(m, keys, reverse);
      }
    }
  }

  lemma FirstUnique(keys: set<string>, reverse: bool)
    ensures forall m, m' :: IsFirst(m, keys, reverse) && IsFirst(m', keys, reverse) ==> m == m'
  {
    forall m, m' | IsFirst(m, keys, reverse) && IsFirst(m', keys, reverse)
      ensures m == m'
    {
      BeforeStrictTotal(m, m', m', reverse);
    }
  }

  /** The smallest key of `keys`, or the largest with `reverse`. */
  function First(keys: set<string>, reverse: bool): (m: string)
    requires keys != {}
    ensures m in keys
    ensures forall y :: y in keys && y != m ==> Before(m, y, reverse)
  {
    FirstExists(keys, reverse);
    FirstUnique(keys, reverse);
    var m :| IsFirst(m, keys, reverse);
    m
  }

  /**
   * `sorted(keys, reverse=reverse)` for a set of distinct keys: every key
   * exactly once, each one strictly before all later ones.
   */
  function SortedKeys(keys: set<string>, reverse: bool): (r: seq<string>)
    ensures forall k :: k in r <==> k in keys
    ensures |r| == |keys|
    ensures forall p, q :: 0 <= p < q < |r| ==> Before(r[p], r[q], reverse)
    decreases keys
  {
    if keys == {} then []
    else
      var m := First(keys, reverse);
      var rest := SortedKeys(keys - {m}, reverse);
      assert forall q :: 0 <= q < |rest| ==> rest[q] in keys - {m};
      [m] + rest
  }
}
