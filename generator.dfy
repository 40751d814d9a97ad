/**
 * The suffix-wildcard candidate generator of lib/util.js (duplicated in
 * lib/index.js, where the class caches it). A query topic of n segments
 * yields n + 1 candidate keys: the topic itself, then, for i = 0 .. n-1, the
 * first i segments followed by n - i wildcards, with the topic's leading and
 * trailing separator put back.
 */
module Generator {
  import opened Text

  /** A topic with at most one leading and one trailing separator taken off. */
  datatype Shape = Shape(lead: bool, trail: bool, body: string)

  /** The stripping done before splitting (lib/util.js:9-17). */
  function Strip(topic: string): (sh: Shape)
    ensures sh.lead <==> |topic| > 0 && topic[0] == '/'
  {
    var lead := |topic| > 0 && topic[0] == '/';
    var rest := if lead then topic[1..] else topic;
    var trail := |rest| > 0 && rest[|rest| - 1] == '/';
    Shape(lead, trail, if trail then rest[..|rest| - 1] else rest)
  }

  /** Puts the stripped separators back (lib/util.js:30-31). */
  function Wrap(lead: bool, trail: bool, s: string): string
  {
    (if lead then "/" else "") + s + (if trail then "/" else "")
  }

  /** The segments of a topic as the generator sees them. */
  function Segments(topic: string): seq<string>
  {
    Split(Strip(topic).body)
  }

  /** Candidate i + 1: the first i segments, then wildcards up to the full length. */
  function Candidate(parts: seq<string>, lead: bool, trail: bool, i: nat): string
    requires i <= |parts|
  {
    Wrap(lead, trail, Join(parts[..i] + Stars(|parts| - i)))
  }

  /** The first i candidates, in order. */
  function Candidates(parts: seq<string>, lead: bool, trail: bool, i: nat): (r: seq<string>)
    requires i <= |parts|
    ensures |r| == i
  {
    if i == 0 then []
    else Candidates(parts, lead, trail, i - 1) + [Candidate(parts, lead, trail, i - 1)]
  }

  /** What `getWildcardPermutations(topic)` returns. */
  function Permutations(topic: string): seq<string>
  {
    var sh := Strip(topic);
    [topic] + Candidates(Split(sh.body), sh.lead, sh.trail, |Split(sh.body)|)
  }

  /** The generator as written: strip the separators, split, then the nested loops. */
  method WildcardPermutations(topic: string) returns (possible: seq<string>)
    ensures possible == Permutations(topic)
  {
    var clonedTopic, leadingSlash, trailingSlash := StripSeparators(topic);
    var parts := Split(clonedTopic);
    possible := Possibilities(topic, parts, leadingSlash, trailingSlash);
  }

  /** The outer loop: the topic, then one possibility per segment count kept. */
  method Possibilities(topic: string, parts: seq<string>, leadingSlash: bool, trailingSlash: bool) returns (possible: seq<string>)
    ensures possible == [topic] + Candidates(parts, leadingSlash, trailingSlash, |parts|)
  {
    possible := [topic];
    var i := 0;
    while i < |parts|
      invariant 0 <= i <= |parts|
      invariant possible == [topic] + Candidates(parts, leadingSlash, trailingSlash, i)
    {
      var possibility := Possibility(parts, leadingSlash, trailingSlash, i);
      possible := possible + [possibility];
      i := i + 1;
    }
  }

  /** Takes off one leading and one trailing separator, remembering which were there. */
  method StripSeparators(topic: string) returns (clonedTopic: string, leadingSlash: bool, trailingSlash: bool)
    ensures Strip(topic) == Shape(leadingSlash, trailingSlash, clonedTopic)
  {
    clonedTopic := topic;
    leadingSlash := false;
    trailingSlash := false;
    if |topic| > 0 && topic[0] == '/' {
      clonedTopic := clonedTopic[1..];
      leadingSlash := true;
    }
    if |clonedTopic| > 0 && clonedTopic[|clonedTopic| - 1] == '/' {
      clonedTopic := clonedTopic[..|clonedTopic| - 1];
      trailingSlash := true;
    }
  }

  /** The body of the outer loop: `i` segments kept, the rest replaced by wildcards, separators restored. */
  method Possibility(parts: seq<string>, leadingSlash: bool, trailingSlash: bool, i: nat) returns (possibility: string)
    requires i < |parts|
    ensures possibility == Candidate(parts, leadingSlash, trailingSlash, i)
  {
    var possibilityParts := parts[..i];
    var ii := |parts|;
    while ii > i
      invariant i <= ii <= |parts|
      invariant possibilityParts == parts[..i] + Stars(|parts| - ii)
    {
      possibilityParts := possibilityParts + ["*"];
      ii := ii - 1;
      StarsSnoc(|parts| - ii - 1);
    }
    possibility := Join(possibilityParts);
    if leadingSlash {
      possibility := "/" + possibility;
    }
    if trailingSlash {
      possibility := possibility + "/";
    }
  }

  lemma StarsSnoc(k: nat)
    ensures Stars(k + 1) == Stars(k) + ["*"]
  {
  }

  /** The first i candidates are listed in order: entry j of them is candidate j. */
  lemma {:induction false} CandidatesAt(parts: seq<string>, lead: bool, trail: bool, i: nat, j: nat)
    requires j < i <= |parts|
    ensures Candidates(parts, lead, trail, i)[j] == Candidate(parts, lead, trail, j)
  {
    if j < i - 1 {
      CandidatesAt(parts, lead, trail, i - 1, j);
    }
  }

  /**
   * The closed form: the result has n + 1 entries, the first is the topic
   * itself and entry i + 1 is the first i segments followed by n - i wildcards.
   */
  lemma PermutationsShape(topic: string, i: nat)
    ensures |Permutations(topic)| == |Segments(topic)| + 1
    ensures Permutations(topic)[0] == topic
    ensures i < |Segments(topic)| ==>
      Permutations(topic)[i + 1] == Candidate(Segments(topic), Strip(topic).lead, Strip(topic).trail, i)
  {
    var sh := Strip(topic);
    var parts := Split(sh.body);
    var cs := Candidates(parts, sh.lead, sh.trail, |parts|);
    assert Permutations(topic) == [topic] + cs;
    assert Segments(topic) == parts;
    if i < |parts| {
      CandidatesAt(parts, sh.lead, sh.trail, |parts|, i);
      assert ([topic] + cs)[i + 1] == cs[i];
    }
  }

  /** Stripping then wrapping gives back the topic. */
  lemma WrapStrip(topic: string)
    ensures Wrap(Strip(topic).lead, Strip(topic).trail, Strip(topic).body) == topic
  {
    var sh := Strip(topic);
    var rest := if sh.lead then topic[1..] else topic;
    if sh.lead {
      assert topic == "/" + rest;
    }
    if sh.trail {
      assert rest == rest[..|rest| - 1] + "/";
    }
  }

  /** Stripping undoes wrapping when the wrapped body cannot be mistaken for a separator. */
  lemma StripWrap(lead: bool, trail: bool, body: string)
    requires |body| > 0 && body[|body| - 1] != '/'
    requires lead || body[0] != '/'
    ensures Strip(Wrap(lead, trail, body)) == Shape(lead, trail, body)
  {
    var c := Wrap(lead, trail, body);
    var rest := body + (if trail then "/" else "");
    if lead {
      assert c == "/" + rest;
      assert c[0] == '/' && c[1..] == rest;
    } else {
      assert c == rest;
      assert c[0] == body[0];
    }
    if trail {
      assert rest == body + "/";
      assert rest[|rest| - 1] == '/' && rest[..|rest| - 1] == body;
    } else {
      assert rest == body;
    }
  }

  /** Without a leading separator, an empty first segment means the body is empty. */
  lemma HeadSegment(topic: string)
    ensures Strip(topic).lead || Segments(topic)[0] != "" || |Segments(topic)| == 1
  {
    var sh := Strip(topic);
    BodyHead(topic);
    if Segments(topic)[0] == "" {
      SplitHeadEmpty(sh.body);
    }
  }

  /** Without a leading separator, the body starts where the topic does. */
  lemma BodyHead(topic: string)
    ensures var sh := Strip(topic);
            !sh.lead && sh.body != [] ==> sh.body[0] == topic[0] && topic[0] != '/'
  {
  }

  /**
   * The joined segments of a candidate end in a wildcard, and they start with
   * a separator only when the topic had a leading one.
   */
  lemma CandidateBody(parts: seq<string>, lead: bool, i: nat)
    requires i < |parts| && NoSeparator(parts)
    requires lead || parts[0] != "" || |parts| == 1
    ensures var body := Join(parts[..i] + Stars(|parts| - i));
            && |body| > 0 && body[|body| - 1] == '*'
            && (lead || body[0] != '/')
  {
    var xs := parts[..i] + Stars(|parts| - i);
    var body := Join(xs);
    assert xs[|xs| - 1] == "*";
    JoinEndsWithLast(xs);
    JoinStartsWithHead(xs);
    assert xs[0] == (if i == 0 then "*" else parts[0]);
    if !lead && xs[0] != "" {
      assert '/' !in xs[0];
      assert body[0] == xs[0][0];
    }
  }

  /**
   * Stripping a generated candidate recovers the separators of the topic and
   * the joined segments: the candidate re-parses to the same shape.
   */
  lemma StripCandidate(parts: seq<string>, lead: bool, trail: bool, i: nat)
    requires i < |parts| && NoSeparator(parts)
    requires lead || parts[0] != "" || |parts| == 1
    ensures Strip(Candidate(parts, lead, trail, i)) == Shape(lead, trail, Join(parts[..i] + Stars(|parts| - i)))
  {
    CandidateBody(parts, lead, i);
    StripWrap(lead, trail, Join(parts[..i] + Stars(|parts| - i)));
  }

  /**
   * Every generated candidate has exactly n segments: the first i of the
   * topic's followed by n - i wildcards; the topic's separators are restored.
   */
  lemma CandidateSegments(topic: string, i: nat)
    requires i < |Segments(topic)|
    ensures var p := Permutations(topic)[i + 1];
            var n := |Segments(topic)|;
            && Strip(p).lead == Strip(topic).lead
            && Strip(p).trail == Strip(topic).trail
            && Segments(p) == Segments(topic)[..i] + Stars(n - i)
            && |Segments(p)| == n
  {
    var sh := Strip(topic);
    var parts := Segments(topic);
    var n := |parts|;
    PermutationsShape(topic, i);
    SplitHasNoSeparator(sh.body);
    HeadSegment(topic);
    StripCandidate(parts, sh.lead, sh.trail, i);
    var xs := parts[..i] + Stars(n - i);
    assert NoSeparator(xs) by {
      forall j | 0 <= j < |xs| ensures '/' !in xs[j] {
        if j < i { assert xs[j] == parts[j]; } else { assert xs[j] == "*"; }
      }
    }
    SplitJoin(xs);
  }

  /** Candidate 1 is all wildcards; the last candidate replaces only the final segment. */
  lemma FirstAndLastCandidates(topic: string)
    ensures var n := |Segments(topic)|;
            && Segments(Permutations(topic)[1]) == Stars(n)
            && Segments(Permutations(topic)[n]) == Segments(topic)[..n - 1] + ["*"]
  {
    var parts := Segments(topic);
    var n := |parts|;
    CandidateSegments(topic, 0);
    assert parts[..0] + Stars(n) == Stars(n);
    CandidateSegments(topic, n - 1);
    assert Stars(1) == ["*"];
    assert parts[..n - 1] + Stars(n - (n - 1)) == parts[..n - 1] + ["*"];
  }

  /** A two-segment topic with a leading separator strips and splits to its two segments. */
  lemma TwoSegmentShape(a: string, b: string)
    requires '/' !in a && '/' !in b && b != ""
    ensures Strip("/" + a + "/" + b) == Shape(true, false, a + "/" + b)
    ensures Segments("/" + a + "/" + b) == [a, b]
  {
    var topic := "/" + a + "/" + b;
    var body := a + "/" + b;
    assert topic[1..] == body;
    assert body[|body| - 1] == b[|b| - 1];
    SplitAfterSegment(a, b);
    SplitSegment(b);
  }

  /** The two candidates of a two-segment rooted topic. */
  lemma TwoCandidates(a: string, b: string)
    ensures Candidate([a, b], true, false, 0) == "/*/*"
    ensures Candidate([a, b], true, false, 1) == "/" + a + "/*"
  {
    var parts := [a, b];
    assert Stars(2) == ["*", "*"] && Stars(1) == ["*"];
    assert parts[..0] + Stars(2) == ["*", "*"];
    assert parts[..1] + Stars(1) == [a, "*"];
    assert Join(["*", "*"]) == "*/*";
    assert Join([a, "*"]) == a + "/*";
    assert Candidate(parts, true, false, 0) == "/" + "*/*" + "";
    assert Candidate(parts, true, false, 1) == "/" + (a + "/*") + "";
  }

  /** A two-segment topic with a leading separator yields itself, both segments starred, and the last one starred. */
  lemma TwoSegments(a: string, b: string)
    requires '/' !in a && '/' !in b && b != ""
    ensures Permutations("/" + a + "/" + b) == ["/" + a + "/" + b, "/*/*", "/" + a + "/*"]
  {
    var topic := "/" + a + "/" + b;
    TwoSegmentShape(a, b);
    TwoCandidates(a, b);
    PermutationsShape(topic, 0);
    PermutationsShape(topic, 1);
    var p := Permutations(topic);
    assert p == [p[0], p[1], p[2]];
  }

  // Only suffix wildcards are generated: a stored "/*/x" is never probed for "/a/x".
  lemma OnlySuffixWildcards()
    ensures Permutations("/a/x") == ["/a/x", "/*/*", "/a/*"]
    ensures "/*/x" !in Permutations("/a/x")
  {
    TwoSegments("a", "x");
    assert "/" + "a" + "/" + "x" == "/a/x";
    assert "/" + "a" + "/*" == "/a/*";
  }

  /** A one-segment topic with a leading separator yields itself and the single wildcard. */
  lemma OneSegment(a: string)
    requires '/' !in a
    ensures Permutations("/" + a) == ["/" + a, "/*"]
  {
    var topic := "/" + a;
    assert topic[1..] == a;
    assert Strip(topic) == Shape(true, false, a);
    SplitSegment(a);
    PermutationsShape(topic, 0);
    assert Stars(1) == ["*"];
    assert [a][..0] + Stars(1) == ["*"];
    assert Candidate([a], true, false, 0) == "/*";
    var p := Permutations(topic);
    assert p == [p[0], p[1]];
  }

  /** A topic whose last segment is already a wildcard comes back as its own last candidate, so it is listed twice. */
  lemma LastSegmentStar(topic: string)
    requires Segments(topic)[|Segments(topic)| - 1] == "*"
    ensures |Permutations(topic)| == |Segments(topic)| + 1
    ensures Permutations(topic)[|Segments(topic)|] == topic == Permutations(topic)[0]
  {
    var n := |Segments(topic)|;
    var sh := Strip(topic);
    var parts := Segments(topic);
    PermutationsShape(topic, n - 1);
    assert Stars(1) == ["*"];
    assert parts[..n - 1] + Stars(1) == parts;
    JoinSplit(sh.body);
    WrapStrip(topic);
  }

  // The query `/*` yields duplicate candidates.
  lemma DuplicateCandidates()
    ensures Permutations("/*") == ["/*", "/*"]
  {
    OneSegment("*");
    assert "/" + "*" == "/*";
  }
}
