/**
 * The full wildcard enumerator of test/__fixtures/util.js: every one of the
 * 2^k ways of replacing segments of a k-segment topic by `*`, enumerated by
 * little-endian bit vectors, optionally narrowed by a mask.
 */
module Fixture {
  import opened Wrappers
  import opened Text

  function Pow2(n: nat): (r: nat)
    ensures r >= 1
    ensures n < r
  {
    if n == 0 then 1 else 2 * Pow2(n - 1)
  }

  /** `(y >> x) & 1`: bit x of y. */
  function Bit(y: nat, x: nat): (b: int)
    ensures b == 0 || b == 1
  {
    if x == 0 then y % 2 else Bit(y / 2, x - 1)
  }

  /** The combination built for counter value y: its n lowest bits, least significant first. */
  function Combo(y: nat, n: nat): (c: seq<int>)
    ensures |c| == n
  {
    seq(n, x requires 0 <= x < n => Bit(y, x))
  }

  /** The little-endian number a combination spells. */
  function Value(c: seq<int>): int
  {
    if c == [] then 0 else c[0] + 2 * Value(c[1..])
  }

  /** Every combination of n bits, in counter order. */
  function AllCombos(n: nat): (r: seq<seq<int>>)
    ensures |r| == Pow2(n)
    ensures forall y :: 0 <= y < |r| ==> r[y] == Combo(y, n)
  {
    seq(Pow2(n), y requires 0 <= y < Pow2(n) => Combo(y, n))
  }

  /** `binaryCombinations(n)`: the result array grown by nested loops. */
  method BinaryCombinations(n: nat) returns (result: seq<seq<int>>)
    ensures |result| == Pow2(n)
    ensures forall y :: 0 <= y < |result| ==> result[y] == Combo(y, n)
    ensures result == AllCombos(n)
  {
    result := [];
    var y := 0;
    while y < Pow2(n)
      invariant 0 <= y <= Pow2(n)
      invariant |result| == y
      invariant forall j :: 0 <= j < y ==> result[j] == Combo(j, n)
    {
      var combo := [];
      var x := 0;
      while x < n
        invariant 0 <= x <= n
        invariant combo == Combo(y, x)
      {
        combo := combo + [Bit(y, x)];
        x := x + 1;
      }
      result := result + [combo];
      y := y + 1;
    }
    assert result == AllCombos(n);
  }

  /** Dropping the lowest bit of a combination is the combination of half the counter. */
  lemma ComboTail(y: nat, n: nat)
    requires n >= 1
    ensures Combo(y, n)[0] == y % 2
    ensures Combo(y, n)[1..] == Combo(y / 2, n - 1)
  {
    assert forall x :: 0 <= x < n - 1 ==> Combo(y, n)[1..][x] == Bit(y, x + 1);
  }

  /** Combination y spells y back: the enumeration is binary counting. */
  lemma {:induction false} ComboValue(y: nat, n: nat)
    requires y < Pow2(n)
    ensures Value(Combo(y, n)) == y
  {
    if n > 0 {
      ComboTail(y, n);
      ComboValue(y / 2, n - 1);
    }
  }

  /** Every combination has n entries, each 0 or 1, and no two of the 2^n are equal. */
  lemma CombinationsDistinct(n: nat, y1: nat, y2: nat)
    requires y1 < Pow2(n) && y2 < Pow2(n) && y1 != y2
    ensures Combo(y1, n) != Combo(y2, n)
    ensures forall x :: 0 <= x < n ==> Combo(y1, n)[x] in {0, 1}
  {
    ComboValue(y1, n);
    ComboValue(y2, n);
  }

  /** A sequence of 0s and 1s, as every combination is. */
  predicate Binary(c: seq<int>)
  {
    forall x :: 0 <= x < |c| ==> c[x] == 0 || c[x] == 1
  }

  /** A 0/1 sequence of length n spells a counter value below 2^n. */
  lemma {:induction false} ValueBound(c: seq<int>)
    requires Binary(c)
    ensures 0 <= Value(c) < Pow2(|c|)
  {
    if c != [] {
      ValueBound(c[1..]);
    }
  }

  /** Every 0/1 sequence of length n is the combination of the value it spells, so it is among the 2^n enumerated. */
  lemma {:induction false} ComboOfValue(c: seq<int>)
    requires Binary(c)
    ensures 0 <= Value(c) < Pow2(|c|)
    ensures Combo(Value(c), |c|) == c
    ensures c in AllCombos(|c|)
  {
    ValueBound(c);
    if c != [] {
      var y := Value(c);
      var rest := c[1..];
      ComboOfValue(rest);
      ComboTail(y, |c|);
      assert y % 2 == c[0] && y / 2 == Value(rest);
      assert Combo(y, |c|) == [Combo(y, |c|)[0]] + Combo(y, |c|)[1..];
      assert c == [c[0]] + rest;
    }
    assert AllCombos(|c|)[Value(c)] == c;
  }

  lemma {:induction false} BitOfZero(x: nat)
    ensures Bit(0, x) == 0
  {
    if x > 0 {
      BitOfZero(x - 1);
    }
  }

  /** Bit x of 2^n - 1 is set for every x below n. */
  lemma {:induction false} BitOfAllOnes(n: nat, x: nat)
    requires x < n
    ensures Bit(Pow2(n) - 1, x) == 1
  {
    if x > 0 {
      assert (Pow2(n) - 1) / 2 == Pow2(n - 1) - 1;
      BitOfAllOnes(n - 1, x - 1);
    }
  }

  /** The counter value of the last combination, 2^n - 1. */
  function AllOnes(n: nat): nat
  {
    Pow2(n) - 1
  }

  /** The first combination is all zeros and the last is all ones. */
  lemma FirstAndLastCombinations(n: nat)
    ensures forall x :: 0 <= x < n ==> Combo(0, n)[x] == 0
    ensures forall x :: 0 <= x < n ==> Combo(AllOnes(n), n)[x] == 1
  {
    forall x | 0 <= x < n ensures Combo(0, n)[x] == 0 && Combo(AllOnes(n), n)[x] == 1 {
      BitOfZero(x);
      BitOfAllOnes(n, x);
    }
  }

  /** Some position where the mask and the combination sum to 2 (`mask[i] + combo[i] == 2`); for a 0/1 mask, a shared 1. */
  predicate SharesOne(combo: seq<int>, mask: seq<int>)
  {
    exists i :: 0 <= i < |combo| && i < |mask| && mask[i] + combo[i] == 2
  }

  /** `checkMask(combo, mask)`: an early-return search for a position where mask and combination sum to 2. */
  method CheckMask(combo: seq<int>, mask: Option<seq<int>>) returns (hit: bool)
    ensures hit <==> mask.None? || SharesOne(combo, mask.value)
  {
    if mask.None? {
      return true;
    }
    var i := 0;
    while i < |combo|
      invariant 0 <= i <= |combo|
      invariant forall j :: 0 <= j < i ==> !(j < |mask.value| && mask.value[j] + combo[j] == 2)
    {
      if i < |mask.value| && mask.value[i] + combo[i] == 2 {
        return true;
      }
      i := i + 1;
    }
    return false;
  }

  /** `eval(mask.join('+'))` on a mask of numbers. */
  function Sum(m: seq<int>): (r: int)
    ensures r > 0 ==> exists j :: 0 <= j < |m| && m[j] > 0
    ensures (forall j :: 0 <= j < |m| ==> m[j] >= 0) ==> r >= 0
  {
    if m == [] then 0 else m[0] + Sum(m[1..])
  }

  /** Whether the forEach body keeps a combination: no mask, a mask summing to at most 0, or a position summing to 2. */
  predicate Kept(combo: seq<int>, mask: Option<seq<int>>)
  {
    mask.None? || Sum(mask.value) <= 0 || SharesOne(combo, mask.value)
  }

  /** Segment j becomes `*` when combination entry j is 1. */
  function Apply(segments: seq<string>, combo: seq<int>): (r: seq<string>)
    ensures |r| == |segments|
  {
    seq(|segments|, j requires 0 <= j < |segments| => if j < |combo| && combo[j] == 1 then "*" else segments[j])
  }

  /** `'/' + possibility.join('/')`. */
  function Render(segments: seq<string>, combo: seq<int>): string
  {
    "/" + Join(Apply(segments, combo))
  }

  /** The strings pushed for the kept combinations, in enumeration order. */
  function Expand(segments: seq<string>, combos: seq<seq<int>>, mask: Option<seq<int>>): seq<string>
  {
    if combos == [] then []
    else
      var last := combos[|combos| - 1];
      Expand(segments, combos[..|combos| - 1], mask) + (if Kept(last, mask) then [Render(segments, last)] else [])
  }

  /** The segments after the first `/` (`topic.split('/').slice(1)`). */
  function FixtureSegments(topic: string): seq<string>
  {
    Split(topic)[1..]
  }

  /** What the fixture's `getWildcardPermutations(topic, mask)` returns. */
  function FixturePermutations(topic: string, mask: Option<seq<int>>): seq<string>
  {
    var segments := FixtureSegments(topic);
    Expand(segments, AllCombos(|segments|), mask)
  }

  /** The fixture's enumerator as written: the combinations of the segments, then a loop over them. */
  method WildcardPermutations(topic: string, mask: Option<seq<int>>) returns (possible: seq<string>)
    ensures possible == FixturePermutations(topic, mask)
  {
    var segments := Split(topic)[1..];
    var combinations := BinaryCombinations(|segments|);
    possible := VisitAll(segments, combinations, mask);
  }

  /** `combinations.forEach(...)`: each combination in turn, pushing what its body pushes. */
  method VisitAll(segments: seq<string>, combinations: seq<seq<int>>, mask: Option<seq<int>>) returns (possible: seq<string>)
    ensures possible == Expand(segments, combinations, mask)
  {
    possible := [];
    var y := 0;
    while y < |combinations|
      invariant 0 <= y <= |combinations|
      invariant possible == Expand(segments, combinations[..y], mask)
    {
      var combo := combinations[y];
      var pushed := Visit(segments, combo, mask);
      ExpandSnoc(segments, combinations[..y], combo, mask);
      assert combinations[..y + 1] == combinations[..y] + [combo];
      possible := possible + pushed;
      y := y + 1;
    }
    assert combinations[..|combinations|] == combinations;
  }

  /** The forEach body for one combination: what it pushes onto the result. */
  method Visit(segments: seq<string>, combo: seq<int>, mask: Option<seq<int>>) returns (pushed: seq<string>)
    ensures pushed == if Kept(combo, mask) then [Render(segments, combo)] else []
  {
    pushed := [];
    var keep := KeepCombination(combo, mask);
    if keep {
      var possibility := Possibility(segments, combo);
      pushed := ["/" + Join(possibility)];
    }
  }

  /** The early return of the forEach body: a mask with a positive sum must sum to 2 with the combination at some position. */
  method KeepCombination(combo: seq<int>, mask: Option<seq<int>>) returns (keep: bool)
    ensures keep == Kept(combo, mask)
  {
    keep := true;
    if mask.Some? && Sum(mask.value) > 0 {
      var hit := CheckMask(combo, mask);
      keep := hit;
    }
  }

  /** Enumerating one more combination appends its rendering exactly when it is kept. */
  lemma ExpandSnoc(segments: seq<string>, combos: seq<seq<int>>, c: seq<int>, mask: Option<seq<int>>)
    ensures Expand(segments, combos + [c], mask) ==
            Expand(segments, combos, mask) + (if Kept(c, mask) then [Render(segments, c)] else [])
  {
    assert (combos + [c])[..|combos|] == combos;
  }

  /** The inner forEach: push `*` or the segment itself. */
  method Possibility(segments: seq<string>, combo: seq<int>) returns (possibility: seq<string>)
    ensures possibility == Apply(segments, combo)
  {
    possibility := [];
    var j := 0;
    while j < |segments|
      invariant 0 <= j <= |segments|
      invariant |possibility| == j
      invariant forall t :: 0 <= t < j ==> possibility[t] == Apply(segments, combo)[t]
    {
      if j < |combo| && combo[j] == 1 {
        possibility := possibility + ["*"];
      } else {
        possibility := possibility + [segments[j]];
      }
      j := j + 1;
    }
  }

  /** Without a mask every combination is rendered, in order. */
  lemma {:induction false} ExpandUnmasked(segments: seq<string>, combos: seq<seq<int>>)
    ensures |Expand(segments, combos, None)| == |combos|
    ensures forall y :: 0 <= y < |combos| ==> Expand(segments, combos, None)[y] == Render(segments, combos[y])
  {
    if combos != [] {
      ExpandUnmasked(segments, combos[..|combos| - 1]);
    }
  }

  /** A mask that sums to at most 0 (all zeros, or empty) filters nothing. */
  lemma {:induction false} ExpandNonPositiveMask(segments: seq<string>, combos: seq<seq<int>>, m: seq<int>)
    requires Sum(m) <= 0
    ensures Expand(segments, combos, Some(m)) == Expand(segments, combos, None)
  {
    if combos != [] {
      ExpandNonPositiveMask(segments, combos[..|combos| - 1], m);
    }
  }

  /** A rendered string is exactly the rendering of some kept combination. */
  lemma {:induction false} ExpandMembers(segments: seq<string>, combos: seq<seq<int>>, mask: Option<seq<int>>, s: string)
    ensures s in Expand(segments, combos, mask) <==>
            exists y :: 0 <= y < |combos| && Kept(combos[y], mask) && s == Render(segments, combos[y])
  {
    if combos != [] {
      var init := combos[..|combos| - 1];
      ExpandMembers(segments, init, mask, s);
      assert forall y :: 0 <= y < |init| ==> init[y] == combos[y];
    }
  }

  /** A topic without a separator has no segments after it, and its only string is `/`. */
  lemma NoSeparatorTopic(topic: string)
    requires '/' !in topic
    ensures FixtureSegments(topic) == []
    ensures FixturePermutations(topic, None) == ["/"]
    ensures Split(FixturePermutations(topic, None)[0][1..]) == [""]
  {
    SplitSegment(topic);
    var all := AllCombos(0);
    assert all == [Combo(0, 0)] && Combo(0, 0) == [];
    assert all[..0] == [];
    assert Render([], []) == "/";
  }

  /**
   * Without a mask the result has 2^k strings, k being the number of segments
   * after the first `/`; string y has k segments, segment j being `*` where
   * bit j of y is 1 and the original segment elsewhere.
   */
  lemma UnmaskedPermutations(topic: string, y: nat)
    ensures |FixturePermutations(topic, None)| == Pow2(|FixtureSegments(topic)|)
    ensures var segments := FixtureSegments(topic);
            y < Pow2(|segments|) && |segments| >= 1 ==>
              && FixturePermutations(topic, None)[y] == Render(segments, Combo(y, |segments|))
              && Split(FixturePermutations(topic, None)[y][1..]) == Apply(segments, Combo(y, |segments|))
  {
    var segments := FixtureSegments(topic);
    var k := |segments|;
    var all := AllCombos(k);
    ExpandUnmasked(segments, all);
    if y < Pow2(k) && k >= 1 {
      var applied := Apply(segments, Combo(y, k));
      SplitHasNoSeparator(topic);
      assert NoSeparator(applied) by {
        forall j | 0 <= j < k ensures '/' !in applied[j] {
          assert segments[j] == Split(topic)[j + 1];
        }
      }
      SplitJoin(applied);
      assert Render(segments, Combo(y, k))[1..] == Join(applied);
    }
  }

  /** The all-zero combination keeps every segment; the all-one one replaces them all. */
  lemma ApplyFirstAndLast(segments: seq<string>)
    ensures Apply(segments, Combo(0, |segments|)) == segments
    ensures Apply(segments, Combo(AllOnes(|segments|), |segments|)) == Stars(|segments|)
  {
    var k := |segments|;
    FirstAndLastCombinations(k);
    var first := Apply(segments, Combo(0, k));
    var last := Apply(segments, Combo(AllOnes(k), k));
    forall j | 0 <= j < k ensures first[j] == segments[j] && last[j] == Stars(k)[j] {
      assert Combo(0, k)[j] == 0;
      assert Combo(AllOnes(k), k)[j] == 1;
    }
  }

  /** Rendering the segments after the first `/` of a topic that starts with `/` gives the topic. */
  lemma RenderTopic(topic: string)
    requires |topic| > 0 && topic[0] == '/'
    ensures "/" + Join(FixtureSegments(topic)) == topic
  {
    assert Split(topic) == [""] + Split(topic[1..]);
    assert FixtureSegments(topic) == Split(topic[1..]);
    JoinSplit(topic[1..]);
    assert topic == "/" + topic[1..];
  }

  /**
   * The first string keeps every segment, which is the topic itself when it
   * starts with `/`; the last replaces every segment by `*`.
   */
  lemma FirstAndLastPermutations(topic: string)
    ensures var segments := FixtureSegments(topic);
            var all := FixturePermutations(topic, None);
            && all[0] == "/" + Join(segments)
            && (|topic| > 0 && topic[0] == '/' ==> all[0] == topic)
            && all[|all| - 1] == "/" + Join(Stars(|segments|))
  {
    var segments := FixtureSegments(topic);
    var k := |segments|;
    var all := AllCombos(k);
    ExpandUnmasked(segments, all);
    ApplyFirstAndLast(segments);
    assert all[0] == Combo(0, k);
    assert all[Pow2(k) - 1] == Combo(AllOnes(k), k);
    if |topic| > 0 && topic[0] == '/' {
      RenderTopic(topic);
    }
  }

  /**
   * A mask summing to more than 0 keeps exactly the combinations that sum to 2
   * with it at some position; an all-zero or empty mask filters nothing.
   */
  lemma MaskedPermutations(topic: string, m: seq<int>, s: string)
    ensures Sum(m) <= 0 ==> FixturePermutations(topic, Some(m)) == FixturePermutations(topic, None)
    ensures var segments := FixtureSegments(topic);
            var k := |segments|;
            Sum(m) > 0 ==>
              (s in FixturePermutations(topic, Some(m)) <==>
               exists y :: 0 <= y < Pow2(k) && SharesOne(Combo(y, k), m) && s == Render(segments, Combo(y, k)))
  {
    var segments := FixtureSegments(topic);
    var k := |segments|;
    var all := AllCombos(k);
    if Sum(m) <= 0 {
      ExpandNonPositiveMask(segments, all, m);
    } else {
      ExpandMembers(segments, all, Some(m), s);
      if s in FixturePermutations(topic, Some(m)) {
        var y :| 0 <= y < |all| && Kept(all[y], Some(m)) && s == Render(segments, all[y]);
        assert all[y] == Combo(y, k);
      }
      if exists y :: 0 <= y < Pow2(k) && SharesOne(Combo(y, k), m) && s == Render(segments, Combo(y, k)) {
        var y :| 0 <= y < Pow2(k) && SharesOne(Combo(y, k), m) && s == Render(segments, Combo(y, k));
        assert all[y] == Combo(y, k);
        assert Kept(all[y], Some(m));
      }
    }
  }
}
