/** The recursive directory scan (`__getContent`).

    The server is a finite tree: each directory answers the name listing
    (NLST) with its entries or with an error, and each entry says how the
    server answers a change into it, what listing it finds there, and how it
    answers the change back to '..'. The scan returns `Truncated` where a
    limit stopped it (the string '+'), `Leaf` for an entry it did not or
    could not enter (the empty string), and `Dir` with one child per entry
    name (a dictionary). Alongside, it tracks the session's working directory
    as a path of segments and the commands it sent. */
module Scanner {
  import opened FtpReplies
  import Paths

  datatype Listing = Listed(entries: seq<Entry>) | ListFailed(error: FtpError)

  /** A listed path, the replies to `cwd(path)` and `cwd('..')`, and the
      listing found after entering it. */
  datatype Entry = Entry(path: string, enter: Reply, inside: Listing, leave: Reply)

  datatype Node = Truncated | Leaf | Dir(children: map<string, Node>)

  datatype Command = Nlst | Cwd(path: string) | CwdUp

  /** `max_depth` and `max_files`; a negative value means no limit. */
  datatype Limits = Limits(maxDepth: int, maxFiles: int)

  /** How the nested call passes its arguments: as the source writes it, or
      in the positions the parameters are declared in. */
  datatype Binding = AsWritten | Intended

  /** The three internal parameters of one call: `optimized` (an integer read
      as Python truth, nonzero meaning true), `count` and `depth`. */
  datatype Args = Args(optimized: int, count: int, depth: int)

  datatype Run = Run(result: Result<Node>, cwd: seq<string>, trace: seq<Command>)
  datatype EntryRun = EntryRun(node: Node, cwd: seq<string>, trace: seq<Command>)
  datatype Level = Level(children: map<string, Node>, cwd: seq<string>, trace: seq<Command>)

  /** The working directory after a successful `cwd(path)`. */
  function Enter(cwd: seq<string>, path: string): (cwd': seq<string>) {
    cwd + Paths.Split(path)
  }

  /** The working directory after a successful `cwd('..')`. */
  function Up(cwd: seq<string>): (cwd': seq<string>) {
    if |cwd| == 0 then cwd else cwd[..|cwd| - 1]
  }

  /** The limit test at the head of a call, on the `count` and `depth` it
      received. */
  predicate Truncates(lim: Limits, count: int, depth: int) {
    || (lim.maxFiles >= 0 && count + 1 >= lim.maxFiles)
    || (lim.maxDepth >= 0 && depth > lim.maxDepth)
  }

  predicate Skipped(path: string) {
    path == "." || path == ".."
  }

  /** The names the level of a listing gets keys for, from entry `i` on. */
  function Names(entries: seq<Entry>, i: nat): (names: set<string>)
    requires i <= |entries|
  {
    set k | i <= k < |entries| && !Skipped(entries[k].path) :: Paths.LastSegment(entries[k].path)
  }

  /** The arguments the nested call receives. As written, the caller's
      `count` lands in `optimized`, `depth + 1` in `count`, and `depth` keeps
      its default 0. */
  function NestedArgs(b: Binding, a: Args): (nested: Args) {
    match b
    case AsWritten => Args(a.count, a.depth + 1, 0)
    case Intended => Args(a.optimized, a.count, a.depth + 1)
  }

  /** The change into `e` succeeds and the nested call it makes passes its
      limit test. */
  predicate Descends(b: Binding, e: Entry, lim: Limits, a: Args) {
    e.enter == Done && !Truncates(lim, NestedArgs(b, a).count, NestedArgs(b, a).depth)
  }

  /** The arguments a listed call passes on to its entries: the file counter
      counts the call itself when files are limited. */
  function Counted(lim: Limits, a: Args): (a': Args) {
    a.(count := if lim.maxFiles >= 0 then a.count + 1 else a.count)
  }

  /** One call of the scan on directory `dir`, the session standing in `cwd`. */
  function GetContent(b: Binding, dir: Listing, lim: Limits, a: Args, cwd: seq<string>): (r: Run)
    ensures r.result == Ok(Truncated) <==> Truncates(lim, a.count, a.depth)
    ensures Truncates(lim, a.count, a.depth) ==> r.cwd == cwd && r.trace == []
    ensures r.result.Err? <==> !Truncates(lim, a.count, a.depth) && dir.ListFailed?
    ensures r.result.Err? ==> r.result.error == dir.error && r.cwd == cwd && r.trace == [Nlst]
    ensures r.result.Ok? && r.result.value != Truncated ==>
      && dir.Listed? && r.result.value.Dir?
      && r.result.value.children.Keys == Names(dir.entries, 0)
      && |r.trace| > 0 && r.trace[0] == Nlst
    ensures cwd <= r.cwd
    decreases dir, 2
  {
    if Truncates(lim, a.count, a.depth) then Run(Ok(Truncated), cwd, [])
    else
      match dir
      case ListFailed(e) => Run(Err(e), cwd, [Nlst])
      case Listed(entries) =>
        var level := VisitEntries(b, dir, 0, lim, Counted(lim, a), Level(map[], cwd, [Nlst]));
        Run(Ok(Dir(level.children)), level.cwd, level.trace)
  }

  /** The loop over the entries of `dir` from entry `i` on, `acc` holding the
      level built so far. Every entry is processed, whatever happened to the
      ones before it. */
  function VisitEntries(b: Binding, dir: Listing, i: nat, lim: Limits, a: Args, acc: Level): (r: Level)
    requires dir.Listed? && i <= |dir.entries|
    ensures r.children.Keys == acc.children.Keys + Names(dir.entries, i)
    ensures acc.trace <= r.trace
    ensures acc.cwd <= r.cwd
    decreases dir, 1, |dir.entries| - i
  {
    if i == |dir.entries| then
      assert Names(dir.entries, i) == {};
      acc
    else
      var e := dir.entries[i];
      assert Names(dir.entries, i)
          == (if Skipped(e.path) then {} else {Paths.LastSegment(e.path)}) + Names(dir.entries, i + 1);
      if Skipped(e.path) then VisitEntries(b, dir, i + 1, lim, a, acc)
      else
        var er := ProcessEntry(b, e, lim, a, acc.cwd);
        var name := Paths.LastSegment(e.path);
        VisitEntries(b, dir, i + 1, lim, a, Level(acc.children[name := er.node], er.cwd, acc.trace + er.trace))
  }

  /** The body of the loop for entry `e`: enter it when its name looks like a
      directory, or when `optimized` is false, and scan it; any of the four
      server errors on the way makes it a `Leaf`. */
  function ProcessEntry(b: Binding, e: Entry, lim: Limits, a: Args, cwd: seq<string>): (r: EntryRun)
    ensures var name := Paths.LastSegment(e.path);
      r.trace != [] <==> a.optimized == 0 || '.' !in name || name[0] == '.'
    ensures r.trace == [] ==> r.node == Leaf && r.cwd == cwd
    ensures r.trace != [] ==> r.trace[0] == Cwd(e.path)
    ensures r.trace != [] && e.enter.Failed? ==> r == EntryRun(Leaf, cwd, [Cwd(e.path)])
    // entered, but an error came before the way back: the session stays below
    ensures r.trace != [] && e.enter == Done && r.node == Leaf ==> |r.cwd| > |cwd|
    ensures r.node != Leaf ==> r.trace != [] && e.enter == Done && e.leave == Done
    // a nested listing that fails is caught and the entry becomes a `Leaf`
    ensures r.trace != [] && Descends(b, e, lim, a) && e.inside.ListFailed? ==> r.node == Leaf
    // an entered, listed directory that is left again gives its own level
    ensures r.trace != [] && Descends(b, e, lim, a) && e.inside.Listed? && e.leave == Done ==>
      r.node.Dir? && r.node.children.Keys == Names(e.inside.entries, 0)
    ensures b == AsWritten && r.trace != [] && e.enter == Done && e.leave == Done ==>
      (r.node == Truncated <==> 0 <= lim.maxFiles <= a.depth + 2)
    ensures b == Intended && r.trace != [] && e.enter == Done && e.leave == Done ==>
      (r.node == Truncated <==> Truncates(lim, a.count, a.depth + 1))
    ensures cwd <= r.cwd
    decreases e, 0
  {
    var name := Paths.LastSegment(e.path);
    var i := Paths.Find(name, '.');
    if !(i <= 0 || a.optimized == 0) then EntryRun(Leaf, cwd, [])
    else
      match e.enter
      case Failed(_) => EntryRun(Leaf, cwd, [Cwd(e.path)])
      case Done =>
        var inside := Enter(cwd, e.path);
        var sub := GetContent(b, e.inside, lim, NestedArgs(b, a), inside);
        var trace := [Cwd(e.path)] + sub.trace;
        if sub.result.Err? then EntryRun(Leaf, sub.cwd, trace)
        else
          match e.leave
          case Failed(_) => EntryRun(Leaf, sub.cwd, trace + [CwdUp])
          case Done =>
            assert cwd <= Up(sub.cwd) by {
              assert |inside| > |cwd| && inside <= sub.cwd;
              assert cwd <= inside;
            }
            EntryRun(sub.result.value, Up(sub.cwd), trace + [CwdUp])
  }

  /** `getContent(max_depth, max_files)`: the scan from the session's
      directory, with `optimized` true, `count` -1 and `depth` 0. Only the
      listing of the start directory can let an error escape. */
  function Scan(tree: Listing, lim: Limits): (r: Run)
    ensures r.result == Ok(Truncated) <==> lim.maxFiles == 0
    ensures r.result.Err? <==> lim.maxFiles != 0 && tree.ListFailed?
    ensures r.result.Ok? && lim.maxFiles != 0 ==>
      r.result.value.Dir? && r.result.value.children.Keys == Names(tree.entries, 0)
  {
    GetContent(AsWritten, tree, lim, Args(1, -1, 0), [])
  }
}
