/**
 * The array operations the store relies on: `sift(filter, list)` with the
 * query abstracted to a predicate, `Array.prototype.indexOf` and
 * `Array.prototype.splice(start, 1)`, and the list left after the matching
 * records have been spliced out one by one.
 */
module Lists {

  /** The records satisfying `p`, in their original order (what `sift` returns). */
  function Select<T>(s: seq<T>, p: T -> bool): (r: seq<T>)
    ensures |r| <= |s|
    ensures forall j :: 0 <= j < |r| ==> r[j] in s && p(r[j])
    ensures forall j :: 0 <= j < |s| && p(s[j]) ==> s[j] in r
  {
    if s == [] then []
    else (if p(s[0]) then [s[0]] else []) + Select(s[1..], p)
  }

  /** The records not satisfying `p`, in their original order. */
  function Reject<T>(s: seq<T>, p: T -> bool): (r: seq<T>)
    ensures |r| <= |s|
    ensures forall j :: 0 <= j < |r| ==> r[j] in s && !p(r[j])
    ensures forall j :: 0 <= j < |s| && !p(s[j]) ==> s[j] in r
  {
    if s == [] then []
    else (if p(s[0]) then [] else [s[0]]) + Reject(s[1..], p)
  }

  /** `s` with its first `k` records satisfying `p` taken out. */
  function DropMatches<T>(s: seq<T>, p: T -> bool, k: nat): seq<T>
  {
    if s == [] then []
    else if p(s[0]) && k > 0 then DropMatches(s[1..], p, k - 1)
    else [s[0]] + DropMatches(s[1..], p, k)
  }

  /** `s.indexOf(x)`: the first position holding `x`, or -1. */
  function IndexOf<T(==)>(s: seq<T>, x: T): (i: int)
    ensures -1 <= i < |s|
    ensures i == -1 <==> x !in s
    ensures 0 <= i ==> s[i] == x && x !in s[..i]
  {
    if s == [] then -1
    else if s[0] == x then 0
    else
      var j := IndexOf(s[1..], x);
      assert s[1..][..if j < 0 then 0 else j] == s[1..if j < 0 then 1 else j + 1];
      if j < 0 then -1 else j + 1
  }

  /** `s.splice(start, 1)` on the array, as the array is left afterwards; a negative start counts from the end. */
  function SpliceOne<T>(s: seq<T>, start: int): (r: seq<T>)
    ensures 0 <= start < |s| ==> r == s[..start] + s[start + 1..]
    ensures start == -1 && |s| > 0 ==> r == s[..|s| - 1]
    ensures |s| <= start ==> r == s
  {
    var at := if start < 0 then (if |s| + start < 0 then 0 else |s| + start) else (if start > |s| then |s| else start);
    if at < |s| then s[..at] + s[at + 1..] else s
  }

  /** Every record is either selected or rejected: the two lists partition the original. */
  lemma {:induction false} SelectRejectPartition<T>(s: seq<T>, p: T -> bool)
    ensures |Select(s, p)| + |Reject(s, p)| == |s|
    ensures multiset(Select(s, p)) + multiset(Reject(s, p)) == multiset(s)
  {
    if s != [] {
      SelectRejectPartition(s[1..], p);
      assert s == [s[0]] + s[1..];
    }
  }

  /** Selection distributes over concatenation, so a filter after concatenation filters each part. */
  lemma {:induction false} SelectAppend<T>(a: seq<T>, b: seq<T>, p: T -> bool)
    ensures Select(a + b, p) == Select(a, p) + Select(b, p)
  {
    if a != [] {
      SelectAppend(a[1..], b, p);
      assert (a + b)[0] == a[0];
      assert (a + b)[1..] == a[1..] + b;
    } else {
      assert a + b == b;
    }
  }

  /** Dropping no matches leaves the list as it is. */
  lemma {:induction false} DropNone<T>(s: seq<T>, p: T -> bool)
    ensures DropMatches(s, p, 0) == s
  {
    if s != [] {
      DropNone(s[1..], p);
      assert s == [s[0]] + s[1..];
    }
  }

  /** Dropping as many matches as there are leaves exactly the rejected records. */
  lemma {:induction false} DropAll<T>(s: seq<T>, p: T -> bool)
    ensures DropMatches(s, p, |Select(s, p)|) == Reject(s, p)
  {
    if s != [] {
      DropAll(s[1..], p);
    }
  }

  /** `indexOf` past a different first record is one more than `indexOf` in the rest. */
  lemma IndexOfPast<T>(a: T, s: seq<T>, x: T)
    requires a != x
    ensures IndexOf([a] + s, x) == if IndexOf(s, x) < 0 then -1 else IndexOf(s, x) + 1
  {
    assert ([a] + s)[1..] == s;
  }

  /** Splicing past an unchanged first record splices the rest. */
  lemma SplicePast<T>(a: T, s: seq<T>, j: nat)
    requires j < |s|
    ensures SpliceOne([a] + s, j + 1) == [a] + SpliceOne(s, j)
  {
    assert ([a] + s)[..j + 1] == [a] + s[..j];
    assert ([a] + s)[j + 2..] == s[j + 1..];
  }

  /**
   * One step of the removal loop: after the first k matches are gone, the
   * (k+1)-th selected record is found by `indexOf`, and splicing it out
   * leaves the list with the first k + 1 matches gone.
   */
  lemma {:induction false} DropStep<T>(s: seq<T>, p: T -> bool, k: nat)
    requires k < |Select(s, p)|
    ensures var d := DropMatches(s, p, k);
            && 0 <= IndexOf(d, Select(s, p)[k])
            && SpliceOne(d, IndexOf(d, Select(s, p)[k])) == DropMatches(s, p, k + 1)
  {
    var d := DropMatches(s, p, k);
    var x := Select(s, p)[k];
    var rest := s[1..];
    if p(s[0]) {
      assert Select(s, p) == [s[0]] + Select(rest, p);
      if k == 0 {
        DropNone(rest, p);
        assert d == s == [s[0]] + rest;
        assert IndexOf(d, x) == 0;
        assert SpliceOne(d, 0) == rest;
      } else {
        DropStep(rest, p, k - 1);
        assert x == Select(rest, p)[k - 1];
      }
    } else {
      assert Select(s, p) == Select(rest, p);
      DropStep(rest, p, k);
      var d' := DropMatches(rest, p, k);
      assert d == [s[0]] + d';
      assert p(x);
      IndexOfPast(s[0], d', x);
      SplicePast(s[0], d', IndexOf(d', x));
    }
  }
}
