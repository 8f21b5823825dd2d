/** The string helpers the scanner applies to listed paths: splitting on '/',
    joining back, and searching for a character. */
module Paths {

  /** Joins path segments with '/' between them. */
  function Join(parts: seq<string>): (s: string)
    requires |parts| >= 1
    decreases |parts|
  {
    if |parts| == 1 then parts[0] else parts[0] + "/" + Join(parts[1..])
  }

  /** The segments of `s` around every '/', as `s.split("/")` computes them:
      never empty, no segment holds a '/', and joining them gives `s` back. */
  function Split(s: string): (parts: seq<string>)
    ensures |parts| >= 1
    ensures forall k :: 0 <= k < |parts| ==> '/' !in parts[k]
    ensures Join(parts) == s
    decreases |s|
  {
    if |s| == 0 then [""]
    else
      var rest := Split(s[1..]);
      if s[0] == '/' then
        assert s == "" + "/" + Join(rest);
        [""] + rest
      else
        var parts := [[s[0]] + rest[0]] + rest[1..];
        assert parts[1..] == rest[1..];
        assert s == [s[0]] + Join(rest);
        parts
  }

  /** The segment after the last '/': the entry name used as a key. */
  function LastSegment(s: string): (name: string)
    ensures '/' !in name
    ensures '/' !in s ==> name == s
  {
    var parts := Split(s);
    NoSlashSplit(s);
    parts[|parts| - 1]
  }

  /** The entry name is the part of the path after its last '/': it ends the
      path, holds no '/', and comes right after a '/' unless it is the whole
      path. */
  lemma LastSegmentEnds(s: string)
    ensures EndSegment(s, LastSegment(s))
  {
    JoinLast(Split(s));
  }

  /** `name` ends `s`, and whatever comes before it ends in '/'. */
  predicate EndSegment(s: string, name: string) {
    && |name| <= |s| && s[|s| - |name|..] == name
    && (|name| < |s| ==> s[|s| - |name| - 1] == '/')
  }

  /** The last segment ends the joined string, right after a '/' when there
      is more than one segment. */
  lemma {:induction false} JoinLast(parts: seq<string>)
    requires |parts| >= 1
    ensures EndSegment(Join(parts), parts[|parts| - 1])
    decreases |parts|
  {
    if |parts| > 1 {
      var rest := Join(parts[1..]);
      var last := parts[|parts| - 1];
      JoinLast(parts[1..]);
      assert parts[1..][|parts| - 2] == last;
      var s := parts[0] + "/" + rest;
      assert s[|s| - |rest|..] == rest;
      assert s[|s| - |rest| - 1] == '/';
      assert s[|s| - |last|..] == rest[|rest| - |last|..];
      if |last| < |rest| {
        assert s[|s| - |last| - 1] == rest[|rest| - |last| - 1];
      }
    }
  }

  /** The position of the first `c` in `s`, or -1 when there is none, as
      `s.find(c)` returns it. */
  function Find(s: string, c: char): (i: int)
    ensures -1 <= i < |s|
    ensures i == -1 <==> c !in s
    ensures 0 <= i ==> s[i] == c && c !in s[..i]
  {
    if |s| == 0 then -1
    else if s[0] == c then 0
    else
      var j := Find(s[1..], c);
      assert s[1..] == s[1..][..] && s[..1] == [s[0]];
      if j == -1 then -1
      else
        assert s[..j + 1] == [s[0]] + s[1..][..j];
        j + 1
  }

  /** A string without '/' is a single segment. */
  lemma {:induction false} NoSlashSplit(s: string)
    ensures '/' !in s ==> Split(s) == [s]
    decreases |s|
  {
    if |s| > 0 && '/' !in s {
      assert '/' !in s[1..] by {
        forall k | 0 <= k < |s[1..]| ensures s[1..][k] != '/' {
          assert s[1..][k] == s[k + 1];
        }
      }
      NoSlashSplit(s[1..]);
      assert [s[0]] + s[1..] == s;
    }
  }

  /** Splitting undoes joining segments that hold no '/'. */
  lemma {:induction false} SplitJoin(parts: seq<string>)
    requires |parts| >= 1
    requires forall k :: 0 <= k < |parts| ==> '/' !in parts[k]
    ensures Split(Join(parts)) == parts
    decreases |parts|
  {
    if |parts| == 1 {
      NoSlashSplit(parts[0]);
    } else {
      SplitJoin(parts[1..]);
      SplitPrefix(parts[0], Join(parts[1..]));
      assert [parts[0]] + parts[1..] == parts;
    }
  }

  /** Splitting `a + "/" + b`, where `a` holds no '/', puts `a` in front of
      the segments of `b`. */
  lemma {:induction false} SplitPrefix(a: string, b: string)
    requires '/' !in a
    ensures Split(a + "/" + b) == [a] + Split(b)
    decreases |a|
  {
    var s := a + "/" + b;
    if |a| == 0 {
      assert s[1..] == b;
    } else {
      assert s[1..] == a[1..] + "/" + b;
      assert '/' !in a[1..] by {
        forall k | 0 <= k < |a[1..]| ensures a[1..][k] != '/' {
          assert a[1..][k] == a[k + 1];
        }
      }
      SplitPrefix(a[1..], b);
      assert [a[0]] + a[1..] == a;
    }
  }
}
