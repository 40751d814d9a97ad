/**
 * How the suffix-wildcard generator of lib/util.js relates to the full
 * enumerator of test/__fixtures/util.js: for a topic that starts with `/`,
 * every candidate of the former is one of the 2^k strings of the latter.
 * Candidate i + 1 (first i segments kept) is the fixture's combination with
 * counter value 2^n - 2^i, whose bits are 0 below i and 1 from i on.
 */
module Agreement {
  import opened Wrappers
  import opened Text
  import Generator
  import opened Fixture

  lemma {:induction false} Pow2Monotone(i: nat, n: nat)
    requires i <= n
    ensures Pow2(i) <= Pow2(n)
  {
    if i < n {
      Pow2Monotone(i, n - 1);
    }
  }

  /** A counter value below 2^x has bit x clear. */
  lemma {:induction false} BitAbove(y: nat, x: nat)
    requires y < Pow2(x)
    ensures Bit(y, x) == 0
  {
    if x > 0 {
      BitAbove(y / 2, x - 1);
    }
  }

  /** The bits of 2^n - 2^i are 0 below position i and 1 from i up to n. */
  lemma {:induction false} SuffixBits(n: nat, i: nat, x: nat)
    requires i <= n && x < n
    ensures Pow2(i) <= Pow2(n)
    ensures Bit(Pow2(n) - Pow2(i), x) == if x >= i then 1 else 0
  {
    Pow2Monotone(i, n);
    if i == 0 {
      BitOfAllOnes(n, x);
      assert AllOnes(n) == Pow2(n) - Pow2(i);
    } else if x > 0 {
      SuffixBits(n - 1, i - 1, x - 1);
      assert (Pow2(n) - Pow2(i)) / 2 == Pow2(n - 1) - Pow2(i - 1);
    }
  }

  /** The combination y = 2^n - 2^i over k >= n positions: 1 exactly at positions i .. n-1. */
  lemma SuffixCombo(y: nat, n: nat, i: nat, k: nat)
    requires i < n <= k
    requires y + Pow2(i) == Pow2(n)
    ensures y < Pow2(k)
    ensures forall x :: 0 <= x < k ==> Combo(y, k)[x] == if i <= x < n then 1 else 0
  {
    Pow2Monotone(n, k);
    forall x | 0 <= x < k ensures Combo(y, k)[x] == if i <= x < n then 1 else 0 {
      if x < n {
        SuffixBits(n, i, x);
      } else {
        BitAboveHigher(y, n, x);
      }
    }
  }

  /** A counter value below 2^n has every bit from n on clear. */
  lemma {:induction false} BitAboveHigher(y: nat, n: nat, x: nat)
    requires y < Pow2(n) && n <= x
    ensures Bit(y, x) == 0
  {
    Pow2Monotone(n, x);
    BitAbove(y, x);
  }

  /** Applying a combination that is 1 exactly at positions i .. n-1 keeps the first i segments and stars the next n - i. */
  lemma ApplySuffix(segments: seq<string>, combo: seq<int>, n: nat, i: nat)
    requires i < n && n <= |segments| <= n + 1 && |combo| == |segments|
    requires |segments| == n + 1 ==> segments[n] == ""
    requires forall x :: 0 <= x < |combo| ==> combo[x] == if i <= x < n then 1 else 0
    ensures Apply(segments, combo) == segments[..i] + Stars(n - i) + (if |segments| == n then [] else [""])
  {
    var k := |segments|;
    var applied := Apply(segments, combo);
    var stars := Stars(n - i);
    var expected := segments[..i] + stars + (if k == n then [] else [""]);
    assert |expected| == k;
    forall x | 0 <= x < k ensures applied[x] == expected[x] {
      if x < i {
        assert expected[x] == segments[x];
      } else if x < n {
        assert expected[x] == stars[x - i] == "*";
      } else {
        assert expected[x] == "";
      }
    }
  }

  /** The fixture segments of a topic with a leading `/` are the split of what follows it. */
  lemma FixtureSegmentsOfRooted(topic: string)
    requires |topic| > 0 && topic[0] == '/'
    ensures FixtureSegments(topic) == Split(topic[1..])
  {
    assert Split(topic) == [""] + Split(topic[1..]);
  }

  /** Rendering the suffix combination over the segments (plus an empty last one for a trailing `/`) gives the generator's candidate. */
  lemma RenderSuffix(segments: seq<string>, parts: seq<string>, trail: bool, combo: seq<int>, i: nat)
    requires i < |parts| && segments == parts + (if trail then [""] else [])
    requires |combo| == |segments|
    requires forall x :: 0 <= x < |combo| ==> combo[x] == if i <= x < |parts| then 1 else 0
    ensures Render(segments, combo) == Generator.Candidate(parts, true, trail, i)
  {
    var n := |parts|;
    var xs := parts[..i] + Stars(n - i);
    assert segments[..i] == parts[..i];
    if trail {
      assert segments[n] == "";
    }
    ApplySuffix(segments, combo, n, i);
    assert Generator.Candidate(parts, true, trail, i) == "/" + Join(xs) + (if trail then "/" else "");
    if trail {
      assert Apply(segments, combo) == xs + [""];
      JoinTrailingEmpty(xs);
    } else {
      assert Apply(segments, combo) == xs;
    }
  }

  /** A rooted topic's fixture segments are the generator's, plus an empty last one when the topic ends in `/`. */
  lemma RootedSegments(topic: string)
    requires |topic| > 0 && topic[0] == '/'
    ensures FixtureSegments(topic) == Generator.Segments(topic) + (if Generator.Strip(topic).trail then [""] else [])
  {
    var sh := Generator.Strip(topic);
    FixtureSegmentsOfRooted(topic);
    if sh.trail {
      assert topic[1..] == sh.body + "/";
      SplitTrailingSeparator(sh.body);
    } else {
      assert topic[1..] == sh.body;
    }
  }

  /** Entry 2^n - 2^i of the unmasked fixture list is the generator's candidate with i segments kept. */
  lemma SuffixEntry(topic: string, i: nat)
    requires |topic| > 0 && topic[0] == '/'
    requires i < |Generator.Segments(topic)|
    ensures var n := |Generator.Segments(topic)|;
            && Pow2(i) <= Pow2(n)
            && Pow2(n) - Pow2(i) < |FixturePermutations(topic, None)|
            && FixturePermutations(topic, None)[Pow2(n) - Pow2(i)] ==
                 Generator.Candidate(Generator.Segments(topic), true, Generator.Strip(topic).trail, i)
  {
    var parts := Generator.Segments(topic);
    var n := |parts|;
    var segments := FixtureSegments(topic);
    RootedSegments(topic);
    Pow2Monotone(i, n);
    var y := Pow2(n) - Pow2(i);
    SuffixCombo(y, n, i, |segments|);
    RenderSuffix(segments, parts, Generator.Strip(topic).trail, Combo(y, |segments|), i);
    UnmaskedPermutations(topic, y);
  }

  /** Candidate i + 1 of the generator is entry 2^n - 2^i of the unmasked fixture list. */
  lemma CandidateInFixture(topic: string, i: nat)
    requires |topic| > 0 && topic[0] == '/'
    requires i < |Generator.Segments(topic)|
    ensures var n := |Generator.Segments(topic)|;
            && Pow2(i) <= Pow2(n)
            && Pow2(n) - Pow2(i) < |FixturePermutations(topic, None)|
            && FixturePermutations(topic, None)[Pow2(n) - Pow2(i)] == Generator.Permutations(topic)[i + 1]
  {
    SuffixEntry(topic, i);
    Generator.PermutationsShape(topic, i);
  }

  /**
   * For a topic that starts with `/`, every candidate of the suffix-wildcard
   * generator appears in the fixture's unmasked enumeration.
   */
  lemma GeneratorWithinFixture(topic: string)
    requires |topic| > 0 && topic[0] == '/'
    ensures forall p :: p in Generator.Permutations(topic) ==> p in FixturePermutations(topic, None)
  {
    var perms := Generator.Permutations(topic);
    var all := FixturePermutations(topic, None);
    var n := |Generator.Segments(topic)|;
    Generator.PermutationsShape(topic, 0);
    forall j | 0 <= j < |perms| ensures perms[j] in all {
      if j == 0 {
        FirstAndLastPermutations(topic);
        UnmaskedPermutations(topic, 0);
      } else {
        CandidateInFixture(topic, j - 1);
      }
    }
  }
}
