/**
 * Topic strings and their segments: JavaScript's `String.prototype.split('/')`
 * and `Array.prototype.join('/')` on the separator used by every topic, and the
 * facts about them that the candidate generators rely on.
 */
module Text {

  /** `s.split('/')`: the pieces between separators; never empty, and `"".split('/')` is `[""]`. */
  function Split(s: string): (parts: seq<string>)
    ensures |parts| >= 1
  {
    if s == [] then [""]
    else
      var rest := Split(s[1..]);
      if s[0] == '/' then [""] + rest
      else [[s[0]] + rest[0]] + rest[1..]
  }

  /** `parts.join('/')`; `[].join('/')` is the empty string. */
  function Join(parts: seq<string>): (r: string)
    ensures |r| >= |parts| - 1
  {
    if |parts| == 0 then ""
    else if |parts| == 1 then parts[0]
    else parts[0] + "/" + Join(parts[1..])
  }

  /** `k` copies of the single-segment wildcard. */
  function Stars(k: nat): (r: seq<string>)
    ensures |r| == k
    ensures forall j :: 0 <= j < k ==> r[j] == "*"
  {
    if k == 0 then [] else ["*"] + Stars(k - 1)
  }

  /** A segment produced by Split never holds the separator. */
  ghost predicate NoSeparator(parts: seq<string>)
  {
    forall j :: 0 <= j < |parts| ==> '/' !in parts[j]
  }

  lemma {:induction false} SplitHasNoSeparator(s: string)
    ensures NoSeparator(Split(s))
  {
    if s != [] {
      SplitHasNoSeparator(s[1..]);
      var rest := Split(s[1..]);
      if s[0] != '/' {
        assert '/' !in rest[0];
        assert forall j :: 1 <= j < |rest| ==> '/' !in rest[j];
      }
    }
  }

  /** Splitting and joining again gives back the original string. */
  lemma {:induction false} JoinSplit(s: string)
    ensures Join(Split(s)) == s
  {
    if s != [] {
      JoinSplit(s[1..]);
      var rest := Split(s[1..]);
      if s[0] == '/' {
        assert Join([""] + rest) == "" + "/" + Join(rest) by {
          assert ([""] + rest)[1..] == rest;
        }
        assert s == "/" + s[1..];
      } else {
        var first := [s[0]] + rest[0];
        if |rest| == 1 {
          assert s == [s[0]] + s[1..];
        } else {
          assert ([first] + rest[1..])[1..] == rest[1..];
          assert s == [s[0]] + s[1..];
        }
      }
    }
  }

  /** A separator-free piece splits to itself. */
  lemma {:induction false} SplitSegment(a: string)
    requires '/' !in a
    ensures Split(a) == [a]
  {
    if a != [] {
      SplitSegment(a[1..]);
      assert [a[0]] + a[1..] == a;
    }
  }

  /** A separator-free piece followed by a separator splits off as one segment. */
  lemma {:induction false} SplitAfterSegment(a: string, s: string)
    requires '/' !in a
    ensures Split(a + "/" + s) == [a] + Split(s)
  {
    if a == [] {
      assert a + "/" + s == "/" + s;
      assert ("/" + s)[1..] == s;
    } else {
      SplitAfterSegment(a[1..], s);
      assert (a + "/" + s)[1..] == a[1..] + "/" + s;
      assert [a[0]] + a[1..] == a;
    }
  }

  /** Joining separator-free segments and splitting again gives the segments back. */
  lemma {:induction false} SplitJoin(parts: seq<string>)
    requires |parts| >= 1
    requires NoSeparator(parts)
    ensures Split(Join(parts)) == parts
  {
    if |parts| == 1 {
      SplitSegment(parts[0]);
    } else {
      assert NoSeparator(parts[1..]) by {
        assert forall j :: 0 <= j < |parts| - 1 ==> parts[1..][j] == parts[j + 1];
      }
      SplitJoin(parts[1..]);
      SplitAfterSegment(parts[0], Join(parts[1..]));
      assert [parts[0]] + parts[1..] == parts;
    }
  }

  /** A string that ends in the separator splits to one more, empty, segment. */
  lemma {:induction false} SplitTrailingSeparator(s: string)
    ensures Split(s + "/") == Split(s) + [""]
  {
    if s == [] {
      assert ("/")[1..] == "";
    } else {
      SplitTrailingSeparator(s[1..]);
      assert (s + "/")[1..] == s[1..] + "/";
      assert (s + "/")[0] == s[0];
      var rest := Split(s[1..]);
      if s[0] != '/' {
        assert (rest + [""])[0] == rest[0];
        assert (rest + [""])[1..] == rest[1..] + [""];
      }
    }
  }

  /** Joining with an extra empty last segment appends the separator. */
  lemma {:induction false} JoinTrailingEmpty(parts: seq<string>)
    requires |parts| >= 1
    ensures Join(parts + [""]) == Join(parts) + "/"
  {
    if |parts| == 1 {
      assert (parts + [""])[1..] == [""];
    } else {
      JoinTrailingEmpty(parts[1..]);
      assert (parts + [""])[1..] == parts[1..] + [""];
    }
  }

  /** The first segment of a split is empty only for the empty string or a leading separator. */
  lemma SplitHeadEmpty(s: string)
    requires Split(s)[0] == ""
    ensures s == [] || s[0] == '/'
  {
  }

  /** Joined segments start with the first segment. */
  lemma {:induction false} JoinStartsWithHead(parts: seq<string>)
    requires |parts| >= 1
    ensures parts[0] <= Join(parts)
  {
    if |parts| > 1 {
      JoinStartsWithHead(parts[1..]);
    }
  }

  /** Joined segments end with the last segment. */
  lemma {:induction false} JoinEndsWithLast(parts: seq<string>)
    requires |parts| >= 1
    ensures |parts[|parts| - 1]| <= |Join(parts)|
    ensures Join(parts)[|Join(parts)| - |parts[|parts| - 1]|..] == parts[|parts| - 1]
  {
    if |parts| > 1 {
      JoinEndsWithLast(parts[1..]);
      var tail := Join(parts[1..]);
      var last := parts[|parts| - 1];
      assert parts[1..][|parts| - 2] == last;
      var whole := parts[0] + "/" + tail;
      assert whole[|whole| - |last|..] == tail[|tail| - |last|..];
    }
  }
}
