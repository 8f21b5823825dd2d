/** What the scan as written does with its limits and with the session's
    working directory, and what the intended argument passing would do. */
module ScannerLemmas {
  import opened FtpReplies
  import Paths
  import opened Scanner

  /** A call that is not cut off and lists its directory returns what the
      loop over the entries built. */
  lemma Unfold(b: Binding, dir: Listing, lim: Limits, a: Args, cwd: seq<string>)
    requires !Truncates(lim, a.count, a.depth) && dir.Listed?
    ensures GetContent(b, dir, lim, a, cwd).result
         == Ok(Dir(VisitEntries(b, dir, 0, lim, Counted(lim, a), Level(map[], cwd, [Nlst])).children))
    ensures GetContent(b, dir, lim, a, cwd).cwd
         == VisitEntries(b, dir, 0, lim, Counted(lim, a), Level(map[], cwd, [Nlst])).cwd
    ensures GetContent(b, dir, lim, a, cwd).trace
         == VisitEntries(b, dir, 0, lim, Counted(lim, a), Level(map[], cwd, [Nlst])).trace
  {
  }

  // ---- max_depth has no effect as written ----

  /** As written, every call receives `depth` 0, so a limit on the depth never
      stops any call: the scan is the same as with no depth limit. */
  lemma {:induction false} MaxDepthIgnored(tree: Listing, maxDepth: int, maxFiles: int)
    ensures Scan(tree, Limits(maxDepth, maxFiles)) == Scan(tree, Limits(-1, maxFiles))
  {
    GetContentDepthFree(tree, maxDepth, maxFiles, Args(1, -1, 0), []);
  }

  lemma {:induction false} GetContentDepthFree(dir: Listing, maxDepth: int, maxFiles: int, a: Args, cwd: seq<string>)
    requires a.depth == 0
    ensures GetContent(AsWritten, dir, Limits(maxDepth, maxFiles), a, cwd)
         == GetContent(AsWritten, dir, Limits(-1, maxFiles), a, cwd)
    decreases dir, 2
  {
    var lim, free := Limits(maxDepth, maxFiles), Limits(-1, maxFiles);
    assert Truncates(lim, a.count, a.depth) == Truncates(free, a.count, a.depth);
    if !Truncates(lim, a.count, a.depth) && dir.Listed? {
      assert Counted(lim, a) == Counted(free, a);
      VisitDepthFree(dir, 0, maxDepth, maxFiles, Counted(lim, a), Level(map[], cwd, [Nlst]));
      Unfold(AsWritten, dir, lim, a, cwd);
      Unfold(AsWritten, dir, free, a, cwd);
    }
  }

  lemma {:induction false} VisitDepthFree(dir: Listing, i: nat, maxDepth: int, maxFiles: int, a: Args, acc: Level)
    requires dir.Listed? && i <= |dir.entries|
    ensures VisitEntries(AsWritten, dir, i, Limits(maxDepth, maxFiles), a, acc)
         == VisitEntries(AsWritten, dir, i, Limits(-1, maxFiles), a, acc)
    decreases dir, 1, |dir.entries| - i
  {
    if i < |dir.entries| {
      var e := dir.entries[i];
      if Skipped(e.path) {
        VisitDepthFree(dir, i + 1, maxDepth, maxFiles, a, acc);
      } else {
        ProcessDepthFree(e, maxDepth, maxFiles, a, acc.cwd);
        var er := ProcessEntry(AsWritten, e, Limits(maxDepth, maxFiles), a, acc.cwd);
        var name := Paths.LastSegment(e.path);
        var next := Level(acc.children[name := er.node], er.cwd, acc.trace + er.trace);
        VisitDepthFree(dir, i + 1, maxDepth, maxFiles, a, next);
      }
    }
  }

  lemma {:induction false} ProcessDepthFree(e: Entry, maxDepth: int, maxFiles: int, a: Args, cwd: seq<string>)
    ensures ProcessEntry(AsWritten, e, Limits(maxDepth, maxFiles), a, cwd)
         == ProcessEntry(AsWritten, e, Limits(-1, maxFiles), a, cwd)
    decreases e, 0
  {
    GetContentDepthFree(e.inside, maxDepth, maxFiles, NestedArgs(AsWritten, a), Enter(cwd, e.path));
  }

  /** As written, every call below the root counts from 1, so its file
      counter reaches 2 at most: any `max_files` of 3 or more gives the scan
      that 3 gives. */
  lemma {:induction false} MaxFilesFromThree(tree: Listing, maxDepth: int, maxFiles: int)
    requires maxFiles >= 3
    ensures Scan(tree, Limits(maxDepth, maxFiles)) == Scan(tree, Limits(maxDepth, 3))
  {
    GetContentFilesFree(tree, maxDepth, maxFiles, Args(1, -1, 0), []);
  }

  /** As written, a limit on files turns the root's counter, 0 once counted,
      into the `optimized` flag of the calls one level below: they try every
      entry with a change of directory, a dotted name included. One level
      further down the flag is 2, and dotted names are skipped again. */
  lemma FirstLevelUnoptimized(lim: Limits, e: Entry, cwd: seq<string>)
    requires lim.maxFiles >= 0
    ensures var first := Counted(lim, NestedArgs(AsWritten, Counted(lim, Args(1, -1, 0))));
      && first.optimized == 0
      && ProcessEntry(AsWritten, e, lim, first, cwd).trace != []
      && Counted(lim, NestedArgs(AsWritten, first)).optimized == 2
    // the calls one level below get as far as their listing exactly when
    // `max_files` is 3 or more
    ensures var nested := NestedArgs(AsWritten, Counted(lim, Args(1, -1, 0)));
      !Truncates(lim, nested.count, nested.depth) <==> lim.maxFiles >= 3
  {
  }

  lemma {:induction false} GetContentFilesFree(dir: Listing, maxDepth: int, maxFiles: int, a: Args, cwd: seq<string>)
    requires maxFiles >= 3 && a.depth == 0 && a.count <= 1
    ensures GetContent(AsWritten, dir, Limits(maxDepth, maxFiles), a, cwd)
         == GetContent(AsWritten, dir, Limits(maxDepth, 3), a, cwd)
    decreases dir, 2
  {
    var lim, three := Limits(maxDepth, maxFiles), Limits(maxDepth, 3);
    assert Truncates(lim, a.count, a.depth) == Truncates(three, a.count, a.depth);
    if !Truncates(lim, a.count, a.depth) && dir.Listed? {
      assert Counted(lim, a) == Counted(three, a);
      VisitFilesFree(dir, 0, maxDepth, maxFiles, Counted(lim, a), Level(map[], cwd, [Nlst]));
      Unfold(AsWritten, dir, lim, a, cwd);
      Unfold(AsWritten, dir, three, a, cwd);
    }
  }

  lemma {:induction false} VisitFilesFree(dir: Listing, i: nat, maxDepth: int, maxFiles: int, a: Args, acc: Level)
    requires maxFiles >= 3 && a.depth == 0
    requires dir.Listed? && i <= |dir.entries|
    ensures VisitEntries(AsWritten, dir, i, Limits(maxDepth, maxFiles), a, acc)
         == VisitEntries(AsWritten, dir, i, Limits(maxDepth, 3), a, acc)
    decreases dir, 1, |dir.entries| - i
  {
    if i < |dir.entries| {
      var e := dir.entries[i];
      if Skipped(e.path) {
        VisitFilesFree(dir, i + 1, maxDepth, maxFiles, a, acc);
      } else {
        ProcessFilesFree(e, maxDepth, maxFiles, a, acc.cwd);
        var er := ProcessEntry(AsWritten, e, Limits(maxDepth, maxFiles), a, acc.cwd);
        var name := Paths.LastSegment(e.path);
        var next := Level(acc.children[name := er.node], er.cwd, acc.trace + er.trace);
        VisitFilesFree(dir, i + 1, maxDepth, maxFiles, a, next);
      }
    }
  }

  lemma {:induction false} ProcessFilesFree(e: Entry, maxDepth: int, maxFiles: int, a: Args, cwd: seq<string>)
    requires maxFiles >= 3 && a.depth == 0
    ensures ProcessEntry(AsWritten, e, Limits(maxDepth, maxFiles), a, cwd)
         == ProcessEntry(AsWritten, e, Limits(maxDepth, 3), a, cwd)
    decreases e, 0
  {
    GetContentFilesFree(e.inside, maxDepth, maxFiles, NestedArgs(AsWritten, a), Enter(cwd, e.path));
  }

  /** A server with a directory `a` holding a directory `b`. */
  function TwoLevels(): (tree: Listing) {
    Listed([Entry("a", Done, Listed([Entry("b", Done, Listed([]), Done)]), Done)])
  }

  /** `max_depth` 0 does not stop the scan as written from listing `b`, two
      levels down; with the intended passing, `a` itself is cut off. */
  lemma MaxDepthZeroCounterexample()
    ensures Scan(TwoLevels(), Limits(0, -1)).result == Ok(Dir(map["a" := Dir(map["b" := Dir(map[])])]))
    ensures !WithinDepth(Scan(TwoLevels(), Limits(0, -1)).result.value, 1)
    ensures GetContent(Intended, TwoLevels(), Limits(0, -1), Args(1, -1, 0), []).result
         == Ok(Dir(map["a" := Truncated]))
  {
    AsWrittenExpands();
    IntendedCutsOff();
  }

  /** The scan as written, with `max_depth` 0: every call gets depth 0, so
      `b` is listed. */
  lemma AsWrittenExpands()
    ensures Scan(TwoLevels(), Limits(0, -1)).result == Ok(Dir(map["a" := Dir(map["b" := Dir(map[])])]))
    ensures !WithinDepth(Scan(TwoLevels(), Limits(0, -1)).result.value, 1)
  {
    AsWrittenRoot();
    var top := Dir(map["a" := Dir(map["b" := Dir(map[])])]);
    assert !WithinDepth(top.children["a"], 0);
  }

  /** As written, the root call on `TwoLevels` returns both levels. */
  lemma AsWrittenRoot()
    ensures GetContent(AsWritten, TwoLevels(), Limits(0, -1), Args(1, -1, 0), []).result
         == Ok(Dir(map["a" := Dir(map["b" := Dir(map[])])]))
  {
    var lim, args, start := Limits(0, -1), Args(1, -1, 0), Level(map[], [], [Nlst]);
    AsWrittenEntryExpands();
    Unfold(AsWritten, TwoLevels(), lim, args, []);
    VisitStep(AsWritten, TwoLevels(), 0, lim, args, start);
    var next := After(AsWritten, TwoLevels().entries[0], lim, args, start);
    assert next.children == map["a" := Dir(map["b" := Dir(map[])])];
  }

  /** The one entry of the root, `a`, holds the level of `b` as written. */
  lemma AsWrittenEntryExpands()
    ensures Paths.LastSegment(TwoLevels().entries[0].path) == "a"
    ensures ProcessEntry(AsWritten, TwoLevels().entries[0], Limits(0, -1), Args(1, -1, 0), []).node
         == Dir(map["b" := Dir(map[])])
  {
    assert Paths.LastSegment("a") == "a";
    AsWrittenInner(Enter([], "a"));
  }

  /** As written, the call on `a` gets depth 0 again and lists `b`. */
  lemma AsWrittenInner(cwd: seq<string>)
    ensures GetContent(AsWritten, TwoLevels().entries[0].inside, Limits(0, -1), Args(-1, 1, 0), cwd).result
         == Ok(Dir(map["b" := Dir(map[])]))
  {
    var lim, args := Limits(0, -1), Args(-1, 1, 0);
    var inside := TwoLevels().entries[0].inside;
    var b := inside.entries[0];
    var start := Level(map[], cwd, [Nlst]);
    assert Paths.LastSegment("b") == "b";
    var inB := GetContent(AsWritten, Listed([]), lim, Args(1, 1, 0), Enter(cwd, "b"));
    assert inB.result == Ok(Dir(map[]));
    var pb := ProcessEntry(AsWritten, b, lim, args, cwd);
    assert pb.node == Dir(map[]);
    Unfold(AsWritten, inside, lim, args, cwd);
    VisitStep(AsWritten, inside, 0, lim, args, start);
    assert After(AsWritten, b, lim, args, start).children == map["b" := Dir(map[])];
  }

  /** The intended passing, with `max_depth` 0: `a` is called with depth 1
      and cut off. */
  lemma IntendedCutsOff()
    ensures GetContent(Intended, TwoLevels(), Limits(0, -1), Args(1, -1, 0), []).result
         == Ok(Dir(map["a" := Truncated]))
  {
    var lim, args, start := Limits(0, -1), Args(1, -1, 0), Level(map[], [], [Nlst]);
    IntendedEntryCut();
    Unfold(Intended, TwoLevels(), lim, args, []);
    VisitStep(Intended, TwoLevels(), 0, lim, args, start);
    var next := After(Intended, TwoLevels().entries[0], lim, args, start);
    assert next.children == map["a" := Truncated];
  }

  /** The one entry of the root, `a`, becomes '+' under the intended passing. */
  lemma IntendedEntryCut()
    ensures Paths.LastSegment(TwoLevels().entries[0].path) == "a"
    ensures ProcessEntry(Intended, TwoLevels().entries[0], Limits(0, -1), Args(1, -1, 0), []).node == Truncated
  {
    var a := TwoLevels().entries[0];
    var lim := Limits(0, -1);
    assert Paths.LastSegment("a") == "a";
    var sub := GetContent(Intended, a.inside, lim, Args(1, -1, 1), Enter([], "a"));
    assert sub.result == Ok(Truncated);
  }

  // ---- the depth bound the intended passing keeps ----

  /** `n` has no directory nested more than `h` levels deep. */
  predicate WithinDepth(n: Node, h: nat)
    decreases h
  {
    match n
    case Dir(m) => h > 0 && forall c :: c in m.Values ==> WithinDepth(c, h - 1)
    case _ => true
  }

  /** With the arguments passed in their declared positions, a non-negative
      `max_depth` bounds how deep the scan descends: directories below depth
      `max_depth` are `Truncated`. */
  lemma {:induction false} IntendedDepthBound(tree: Listing, lim: Limits)
    requires lim.maxDepth >= 0
    ensures GetContent(Intended, tree, lim, Args(1, -1, 0), []).result.Ok? ==>
      WithinDepth(GetContent(Intended, tree, lim, Args(1, -1, 0), []).result.value, lim.maxDepth + 1)
  {
    var a := Args(1, -1, 0);
    GetContentWithin(tree, lim, a, []);
    assert Room(lim, a.depth) == lim.maxDepth + 1;
  }

  /** How many levels of directories a call at `depth` may still return. */
  function Room(lim: Limits, depth: int): (levels: nat)
    requires lim.maxDepth >= 0
  {
    if depth > lim.maxDepth then 0 else lim.maxDepth + 1 - depth
  }

  lemma {:induction false} GetContentWithin(dir: Listing, lim: Limits, a: Args, cwd: seq<string>)
    requires lim.maxDepth >= 0 && a.depth >= 0
    ensures GetContent(Intended, dir, lim, a, cwd).result.Ok? ==>
      WithinDepth(GetContent(Intended, dir, lim, a, cwd).result.value, Room(lim, a.depth))
    decreases dir, 2
  {
    if !Truncates(lim, a.count, a.depth) && dir.Listed? {
      var a', acc := Counted(lim, a), Level(map[], cwd, [Nlst]);
      var level := VisitEntries(Intended, dir, 0, lim, a', acc);
      Unfold(Intended, dir, lim, a, cwd);
      assert a'.depth == a.depth <= lim.maxDepth;
      assert acc.children.Values == {};
      VisitWithin(dir, 0, lim, a', acc);
      assert Room(lim, a.depth) - 1 == lim.maxDepth - a.depth;
      DirWithin(level.children, Room(lim, a.depth));
    }
  }

  lemma {:induction false} VisitWithin(dir: Listing, i: nat, lim: Limits, a: Args, acc: Level)
    requires dir.Listed? && i <= |dir.entries|
    requires 0 <= a.depth <= lim.maxDepth
    requires forall c :: c in acc.children.Values ==> WithinDepth(c, lim.maxDepth - a.depth)
    ensures forall c :: c in VisitEntries(Intended, dir, i, lim, a, acc).children.Values ==>
      WithinDepth(c, lim.maxDepth - a.depth)
    decreases dir, 1, |dir.entries| - i
  {
    if i < |dir.entries| {
      var e := dir.entries[i];
      if Skipped(e.path) {
        VisitWithin(dir, i + 1, lim, a, acc);
      } else {
        ProcessWithin(e, lim, a, acc.cwd);
        var er := ProcessEntry(Intended, e, lim, a, acc.cwd);
        var name := Paths.LastSegment(e.path);
        var next := Level(acc.children[name := er.node], er.cwd, acc.trace + er.trace);
        UpdatedValues(acc.children, name, er.node);
        assert WithinDepth(er.node, lim.maxDepth - a.depth);
        forall c | c in next.children.Values ensures WithinDepth(c, lim.maxDepth - a.depth) {
          if c != er.node {
            assert c in acc.children.Values;
          }
        }
        assert VisitEntries(Intended, dir, i, lim, a, acc) == VisitEntries(Intended, dir, i + 1, lim, a, next);
        VisitWithin(dir, i + 1, lim, a, next);
      }
    }
  }

  lemma DirWithin(m: map<string, Node>, h: nat)
    requires h > 0 && forall c :: c in m.Values ==> WithinDepth(c, h - 1)
    ensures WithinDepth(Dir(m), h)
  {
  }

  /** A value of an updated map is the new value or an old one. */
  lemma UpdatedValues(m: map<string, Node>, k: string, v: Node)
    ensures forall c :: c in m[k := v].Values ==> c == v || c in m.Values
  {
    forall c | c in m[k := v].Values ensures c == v || c in m.Values {
      var j :| j in m[k := v] && m[k := v][j] == c;
      if j != k {
        assert m[j] == c;
      }
    }
  }

  lemma {:induction false} ProcessWithin(e: Entry, lim: Limits, a: Args, cwd: seq<string>)
    requires 0 <= a.depth <= lim.maxDepth
    ensures WithinDepth(ProcessEntry(Intended, e, lim, a, cwd).node, lim.maxDepth - a.depth)
    decreases e, 0
  {
    var r := ProcessEntry(Intended, e, lim, a, cwd);
    if r.node.Dir? {
      var sub := GetContent(Intended, e.inside, lim, NestedArgs(Intended, a), Enter(cwd, e.path));
      assert r.node == sub.result.value;
      var nested := NestedArgs(Intended, a);
      assert nested.depth == a.depth + 1;
      assert Room(lim, nested.depth) == lim.maxDepth - a.depth;
      GetContentWithin(e.inside, lim, nested, Enter(cwd, e.path));
    }
  }

  // ---- the working directory comes back ----

  /** Every directory the scan may enter is named by a single segment, and
      listing it and changing back out of it both succeed. */
  predicate Restorable(dir: Listing)
    decreases dir, 1
  {
    match dir
    case ListFailed(_) => true
    case Listed(entries) => forall k :: 0 <= k < |entries| ==> EntryRestorable(entries[k])
  }

  predicate EntryRestorable(e: Entry)
    decreases e, 0
  {
    e.enter == Done ==> '/' !in e.path && e.leave == Done && e.inside.Listed? && Restorable(e.inside)
  }

  /** On such a server every call leaves the session where it found it. */
  lemma {:induction false} GetContentRestores(b: Binding, dir: Listing, lim: Limits, a: Args, cwd: seq<string>)
    requires Restorable(dir)
    ensures GetContent(b, dir, lim, a, cwd).cwd == cwd
    decreases dir, 2
  {
    if !Truncates(lim, a.count, a.depth) && dir.Listed? {
      VisitRestores(b, dir, 0, lim, Counted(lim, a), Level(map[], cwd, [Nlst]));
      Unfold(b, dir, lim, a, cwd);
    }
  }

  lemma {:induction false} VisitRestores(b: Binding, dir: Listing, i: nat, lim: Limits, a: Args, acc: Level)
    requires dir.Listed? && i <= |dir.entries| && Restorable(dir)
    ensures VisitEntries(b, dir, i, lim, a, acc).cwd == acc.cwd
    decreases dir, 1, |dir.entries| - i
  {
    if i < |dir.entries| {
      var e := dir.entries[i];
      if Skipped(e.path) {
        VisitRestores(b, dir, i + 1, lim, a, acc);
      } else {
        ProcessRestores(b, e, lim, a, acc.cwd);
        var er := ProcessEntry(b, e, lim, a, acc.cwd);
        var name := Paths.LastSegment(e.path);
        VisitRestores(b, dir, i + 1, lim, a, Level(acc.children[name := er.node], er.cwd, acc.trace + er.trace));
      }
    }
  }

  lemma {:induction false} ProcessRestores(b: Binding, e: Entry, lim: Limits, a: Args, cwd: seq<string>)
    requires EntryRestorable(e)
    ensures ProcessEntry(b, e, lim, a, cwd).cwd == cwd
    decreases e, 0
  {
    if e.enter == Done {
      Paths.NoSlashSplit(e.path);
      var inside := Enter(cwd, e.path);
      assert inside == cwd + [e.path];
      GetContentRestores(b, e.inside, lim, NestedArgs(b, a), inside);
    }
  }

  // ---- what each key of a level holds ----

  /** A call's result and the commands it sends do not depend on the
      working directory it starts from. */
  lemma {:induction false} GetContentCwdFree(b: Binding, dir: Listing, lim: Limits, a: Args, cwd: seq<string>)
    ensures GetContent(b, dir, lim, a, cwd).result == GetContent(b, dir, lim, a, []).result
    ensures GetContent(b, dir, lim, a, cwd).trace == GetContent(b, dir, lim, a, []).trace
    decreases dir, 2
  {
    if !Truncates(lim, a.count, a.depth) && dir.Listed? {
      VisitCwdFree(b, dir, 0, lim, Counted(lim, a), Level(map[], cwd, [Nlst]), Level(map[], [], [Nlst]));
      Unfold(b, dir, lim, a, cwd);
      Unfold(b, dir, lim, a, []);
    }
  }

  lemma {:induction false} VisitCwdFree(b: Binding, dir: Listing, i: nat, lim: Limits, a: Args, acc: Level, acc': Level)
    requires dir.Listed? && i <= |dir.entries|
    requires acc.children == acc'.children && acc.trace == acc'.trace
    ensures VisitEntries(b, dir, i, lim, a, acc).children == VisitEntries(b, dir, i, lim, a, acc').children
    ensures VisitEntries(b, dir, i, lim, a, acc).trace == VisitEntries(b, dir, i, lim, a, acc').trace
    decreases dir, 1, |dir.entries| - i
  {
    if i < |dir.entries| {
      var e := dir.entries[i];
      if Skipped(e.path) {
        VisitCwdFree(b, dir, i + 1, lim, a, acc, acc');
      } else {
        ProcessCwdFree(b, e, lim, a, acc.cwd);
        ProcessCwdFree(b, e, lim, a, acc'.cwd);
        var er, er' := ProcessEntry(b, e, lim, a, acc.cwd), ProcessEntry(b, e, lim, a, acc'.cwd);
        var name := Paths.LastSegment(e.path);
        VisitCwdFree(b, dir, i + 1, lim, a,
          Level(acc.children[name := er.node], er.cwd, acc.trace + er.trace),
          Level(acc'.children[name := er'.node], er'.cwd, acc'.trace + er'.trace));
      }
    }
  }

  lemma {:induction false} ProcessCwdFree(b: Binding, e: Entry, lim: Limits, a: Args, cwd: seq<string>)
    ensures ProcessEntry(b, e, lim, a, cwd).node == ProcessEntry(b, e, lim, a, []).node
    ensures ProcessEntry(b, e, lim, a, cwd).trace == ProcessEntry(b, e, lim, a, []).trace
    decreases e, 0
  {
    if e.enter == Done {
      GetContentCwdFree(b, e.inside, lim, NestedArgs(b, a), Enter(cwd, e.path));
      GetContentCwdFree(b, e.inside, lim, NestedArgs(b, a), Enter([], e.path));
    }
  }

  /** An entry that is entered and left again holds the level its nested
      call returns, wherever the session stands: the scan result nests one
      call's level inside another's. */
  lemma ProcessValue(b: Binding, e: Entry, lim: Limits, a: Args, cwd: seq<string>)
    requires ProcessEntry(b, e, lim, a, cwd).trace != [] && e.enter == Done && e.leave == Done
    requires GetContent(b, e.inside, lim, NestedArgs(b, a), []).result.Ok?
    ensures ProcessEntry(b, e, lim, a, cwd).node == GetContent(b, e.inside, lim, NestedArgs(b, a), []).result.value
  {
    GetContentCwdFree(b, e.inside, lim, NestedArgs(b, a), Enter(cwd, e.path));
  }

  /** An entered entry sends `cwd` into its path, then the commands of its
      nested call, then `cwd('..')` exactly when that call returned; a call
      that raised is not followed by the change back. */
  lemma ProcessTrace(b: Binding, e: Entry, lim: Limits, a: Args, cwd: seq<string>)
    requires ProcessEntry(b, e, lim, a, cwd).trace != [] && e.enter == Done
    ensures var sub := GetContent(b, e.inside, lim, NestedArgs(b, a), []);
      ProcessEntry(b, e, lim, a, cwd).trace
      == [Cwd(e.path)] + sub.trace + (if sub.result.Ok? then [CwdUp] else [])
  {
    GetContentCwdFree(b, e.inside, lim, NestedArgs(b, a), Enter(cwd, e.path));
  }

  /** The one `cwd('..')` after a nested call climbs a single segment, while
      the `cwd` into the entry descended by every segment of its path: an
      entry whose path has several segments leaves the session below where
      it started. */
  lemma ProcessLeaves(b: Binding, e: Entry, lim: Limits, a: Args, cwd: seq<string>)
    requires ProcessEntry(b, e, lim, a, cwd).trace != [] && e.enter == Done && e.leave == Done
    requires e.inside.Listed? && Restorable(e.inside)
    ensures var parts := Paths.Split(e.path);
      ProcessEntry(b, e, lim, a, cwd).cwd == cwd + parts[..|parts| - 1]
  {
    var inside := Enter(cwd, e.path);
    GetContentRestores(b, e.inside, lim, NestedArgs(b, a), inside);
    var parts := Paths.Split(e.path);
    assert Up(inside) == cwd + parts[..|parts| - 1];
  }

  /** Entry `k` is the last entry of the listing that gets its name. */
  predicate LastOfName(entries: seq<Entry>, k: int)
    requires 0 <= k < |entries|
  {
    forall j :: k < j < |entries| && !Skipped(entries[j].path) ==>
      Paths.LastSegment(entries[j].path) != Paths.LastSegment(entries[k].path)
  }

  /** The commands the entries from `i` on send, each entry scanned on its own. */
  function EntryTraces(b: Binding, dir: Listing, i: nat, lim: Limits, a: Args): (trace: seq<Command>)
    requires dir.Listed? && i <= |dir.entries|
    decreases |dir.entries| - i
  {
    if i == |dir.entries| then []
    else
      var e := dir.entries[i];
      (if Skipped(e.path) then [] else ProcessEntry(b, e, lim, a, []).trace) + EntryTraces(b, dir, i + 1, lim, a)
  }

  /** The level after processing the non-skipped entry `e`. */
  function After(b: Binding, e: Entry, lim: Limits, a: Args, acc: Level): (next: Level) {
    var er := ProcessEntry(b, e, lim, a, acc.cwd);
    Level(acc.children[Paths.LastSegment(e.path) := er.node], er.cwd, acc.trace + er.trace)
  }

  /** One turn of the loop. */
  lemma VisitStep(b: Binding, dir: Listing, i: nat, lim: Limits, a: Args, acc: Level)
    requires dir.Listed? && i < |dir.entries|
    ensures VisitEntries(b, dir, i, lim, a, acc)
         == if Skipped(dir.entries[i].path) then VisitEntries(b, dir, i + 1, lim, a, acc)
            else VisitEntries(b, dir, i + 1, lim, a, After(b, dir.entries[i], lim, a, acc))
  {
  }

  /** The names from entry `i` on are those of entry `i` and those after it. */
  lemma NamesStep(entries: seq<Entry>, i: nat)
    requires i < |entries|
    ensures Names(entries, i)
         == (if Skipped(entries[i].path) then {} else {Paths.LastSegment(entries[i].path)}) + Names(entries, i + 1)
    ensures LastOfName(entries, i) ==> Paths.LastSegment(entries[i].path) !in Names(entries, i + 1)
  {
  }

  /** The loop over the entries from `i` on keeps the keys it does not list
      again. */
  lemma {:induction false} VisitKeeps(b: Binding, dir: Listing, i: nat, lim: Limits, a: Args, acc: Level)
    requires dir.Listed? && i <= |dir.entries|
    ensures forall n :: n in acc.children && n !in Names(dir.entries, i) ==>
      VisitEntries(b, dir, i, lim, a, acc).children[n] == acc.children[n]
    decreases |dir.entries| - i
  {
    if i < |dir.entries| {
      var e := dir.entries[i];
      VisitStep(b, dir, i, lim, a, acc);
      NamesStep(dir.entries, i);
      if Skipped(e.path) {
        VisitKeeps(b, dir, i + 1, lim, a, acc);
      } else {
        VisitKeeps(b, dir, i + 1, lim, a, After(b, e, lim, a, acc));
      }
    }
  }

  /** The loop gives each name the node of the last entry with that name,
      scanned as if nothing came before it: every entry is processed,
      whatever happened to the ones before it. */
  lemma {:induction false} VisitValues(b: Binding, dir: Listing, i: nat, lim: Limits, a: Args, acc: Level)
    requires dir.Listed? && i <= |dir.entries|
    ensures forall k :: i <= k < |dir.entries| && !Skipped(dir.entries[k].path) && LastOfName(dir.entries, k) ==>
      VisitEntries(b, dir, i, lim, a, acc).children[Paths.LastSegment(dir.entries[k].path)]
        == ProcessEntry(b, dir.entries[k], lim, a, []).node
    decreases |dir.entries| - i
  {
    if i < |dir.entries| {
      var e := dir.entries[i];
      VisitStep(b, dir, i, lim, a, acc);
      if Skipped(e.path) {
        VisitValues(b, dir, i + 1, lim, a, acc);
      } else {
        var next := After(b, e, lim, a, acc);
        VisitValues(b, dir, i + 1, lim, a, next);
        if LastOfName(dir.entries, i) {
          NamesStep(dir.entries, i);
          VisitKeeps(b, dir, i + 1, lim, a, next);
          ProcessCwdFree(b, e, lim, a, acc.cwd);
        }
      }
    }
  }

  lemma TraceStep(b: Binding, dir: Listing, i: nat, lim: Limits, a: Args)
    requires dir.Listed? && i < |dir.entries|
    ensures EntryTraces(b, dir, i, lim, a)
         == (if Skipped(dir.entries[i].path) then [] else ProcessEntry(b, dir.entries[i], lim, a, []).trace)
            + EntryTraces(b, dir, i + 1, lim, a)
  {
  }

  /** The loop sends the commands of every entry, in listing order. */
  lemma {:induction false} VisitTrace(b: Binding, dir: Listing, i: nat, lim: Limits, a: Args, acc: Level)
    requires dir.Listed? && i <= |dir.entries|
    ensures VisitEntries(b, dir, i, lim, a, acc).trace == acc.trace + EntryTraces(b, dir, i, lim, a)
    decreases |dir.entries| - i
  {
    if i < |dir.entries| {
      var e := dir.entries[i];
      VisitStep(b, dir, i, lim, a, acc);
      if Skipped(e.path) {
        VisitTrace(b, dir, i + 1, lim, a, acc);
        TraceStep(b, dir, i, lim, a);
        var rest := EntryTraces(b, dir, i + 1, lim, a);
        assert [] + rest == rest;
        assert EntryTraces(b, dir, i, lim, a) == rest;
        assert VisitEntries(b, dir, i, lim, a, acc) == VisitEntries(b, dir, i + 1, lim, a, acc);
      } else {
        VisitTrace(b, dir, i + 1, lim, a, After(b, e, lim, a, acc));
        TraceEntered(b, dir, i, lim, a, acc);
      }
    }
  }

  /** The step of `VisitTrace` for an entry the loop scans: its commands come
      between those before it and those of the entries after it. */
  lemma TraceEntered(b: Binding, dir: Listing, i: nat, lim: Limits, a: Args, acc: Level)
    requires dir.Listed? && i < |dir.entries| && !Skipped(dir.entries[i].path)
    requires var next := After(b, dir.entries[i], lim, a, acc);
      VisitEntries(b, dir, i + 1, lim, a, next).trace == next.trace + EntryTraces(b, dir, i + 1, lim, a)
    ensures VisitEntries(b, dir, i, lim, a, acc).trace == acc.trace + EntryTraces(b, dir, i, lim, a)
  {
    EnteredStep(b, dir, i, lim, a, acc);
    Regroup(acc.trace, ProcessEntry(b, dir.entries[i], lim, a, []).trace, EntryTraces(b, dir, i + 1, lim, a));
  }

  /** Concatenation regrouped, as a separate fact: asserting it inline, among
      the scan's definitions, makes the solver run out of resource. */
  lemma Regroup(x: seq<Command>, y: seq<Command>, z: seq<Command>)
    ensures (x + y) + z == x + (y + z)
  {
  }

  /** One turn of the loop on an entry it scans, and the commands that turn
      adds, wherever the scan stands. */
  lemma EnteredStep(b: Binding, dir: Listing, i: nat, lim: Limits, a: Args, acc: Level)
    requires dir.Listed? && i < |dir.entries| && !Skipped(dir.entries[i].path)
    ensures VisitEntries(b, dir, i, lim, a, acc)
         == VisitEntries(b, dir, i + 1, lim, a, After(b, dir.entries[i], lim, a, acc))
    ensures var mine := ProcessEntry(b, dir.entries[i], lim, a, []).trace;
      After(b, dir.entries[i], lim, a, acc).trace == acc.trace + mine
      && EntryTraces(b, dir, i, lim, a) == mine + EntryTraces(b, dir, i + 1, lim, a)
  {
    VisitStep(b, dir, i, lim, a, acc);
    TraceStep(b, dir, i, lim, a);
    ProcessCwdFree(b, dir.entries[i], lim, a, acc.cwd);
  }

  /** A call that passes its limit test and lists its directory returns a
      level whose every name holds the scan of the last entry of that name,
      and sends NLST and then the commands of every entry in order. */
  lemma GetContentValues(b: Binding, dir: Listing, lim: Limits, a: Args, cwd: seq<string>)
    requires !Truncates(lim, a.count, a.depth) && dir.Listed?
    ensures GetContent(b, dir, lim, a, cwd).result.Ok?
    ensures forall k :: 0 <= k < |dir.entries| && !Skipped(dir.entries[k].path) && LastOfName(dir.entries, k) ==>
      GetContent(b, dir, lim, a, cwd).result.value.children[Paths.LastSegment(dir.entries[k].path)]
        == ProcessEntry(b, dir.entries[k], lim, Counted(lim, a), []).node
    ensures GetContent(b, dir, lim, a, cwd).trace == [Nlst] + EntryTraces(b, dir, 0, lim, Counted(lim, a))
  {
    Unfold(b, dir, lim, a, cwd);
    VisitValues(b, dir, 0, lim, Counted(lim, a), Level(map[], cwd, [Nlst]));
    VisitTrace(b, dir, 0, lim, Counted(lim, a), Level(map[], cwd, [Nlst]));
  }

  /** `getContent`: each root name holds its last entry as the root call
      processes it. That call has `optimized` 1, depth 0 and a file counter
      of 0 after counting itself when files are limited, -1 otherwise; as
      written, the entry's nested call receives that counter as `optimized`. */
  lemma ScanValues(tree: Listing, lim: Limits)
    requires lim.maxFiles != 0 && tree.Listed?
    ensures Scan(tree, lim).result.Ok?
    ensures forall k :: 0 <= k < |tree.entries| && !Skipped(tree.entries[k].path) && LastOfName(tree.entries, k) ==>
      Scan(tree, lim).result.value.children[Paths.LastSegment(tree.entries[k].path)]
        == ProcessEntry(AsWritten, tree.entries[k], lim, Args(1, if lim.maxFiles >= 0 then 0 else -1, 0), []).node
  {
    GetContentValues(AsWritten, tree, lim, Args(1, -1, 0), []);
  }
}
