/** Resolving a filelist that includes other filelists (`gen_filelist.py`). */
module Filelist {

  /** A normalised path, or the text of a define: only ever compared. */
  type Path = nat

  /** A line of a filelist, comments and blanks dropped, variables and paths resolved. */
  datatype Line = Include(path: Path) | IncDir(path: Path) | Define(text: Path) | Source(path: Path)

  /** The filelists that can be entered. */
  type Files = map<Path, seq<Line>>

  ghost predicate Includes(fs: Files, x: Path, y: Path) {
    x in fs && Include(y) in fs[x]
  }

  /** A chain of includes. */
  ghost predicate Chain(fs: Files, ch: seq<Path>) {
    forall i | 0 < i < |ch| :: Includes(fs, ch[i - 1], ch[i])
  }

  ghost predicate Along(fs: Files, ch: seq<Path>, x: Path, y: Path) {
    ch != [] && ch[0] == x && ch[|ch| - 1] == y && Chain(fs, ch)
  }

  ghost predicate Reaches(fs: Files, x: Path, y: Path) {
    exists ch :: Along(fs, ch, x, y)
  }

  lemma ReachesSelf(fs: Files, x: Path)
    ensures Reaches(fs, x, x)
  {
    assert Along(fs, [x], x, x);
  }

  lemma ReachesVia(fs: Files, x: Path, y: Path, z: Path)
    requires Includes(fs, x, y) && Reaches(fs, y, z)
    ensures Reaches(fs, x, z)
  {
    var ch :| Along(fs, ch, y, z);
    assert Along(fs, [x] + ch, x, z);
  }

  /** A set that holds the start and whatever its members include holds all it reaches. */
  lemma {:induction false} ClosedHoldsChain(fs: Files, s: set<Path>, ch: seq<Path>)
    requires ch != [] && Chain(fs, ch) && ch[0] in s
    requires forall x, y | x in s && Includes(fs, x, y) :: y in s
    ensures ch[|ch| - 1] in s
  {
    if |ch| > 1 {
      ClosedHoldsChain(fs, s, ch[..|ch| - 1]);
      assert Includes(fs, ch[|ch| - 2], ch[|ch| - 1]);
    }
  }

  // ----- What the lines of filelists contribute --------------------------------------

  /** Collected sources (with repetitions), include directories and defines. */
  datatype Found = Found(sources: multiset<Path>, incdirs: set<Path>, defines: set<Path>) {
    function Plus(other: Found): Found {
      Found(sources + other.sources, incdirs + other.incdirs, defines + other.defines)
    }
  }

  const NOTHING := Found(multiset{}, {}, {})

  function InLine(l: Line): Found {
    match l
    case Include(_) => NOTHING
    case IncDir(p) => Found(multiset{}, {p}, {})
    case Define(t) => Found(multiset{}, {}, {t})
    case Source(p) => Found(multiset{p}, {}, {})
  }

  ghost function InLines(ls: seq<Line>): Found {
    if ls == [] then NOTHING else InLines(ls[..|ls| - 1]).Plus(InLine(ls[|ls| - 1]))
  }

  /** What several filelists list themselves, each counted as often as it occurs. */
  ghost function InLists(fs: Files, xs: seq<Path>): Found {
    if xs == [] then NOTHING
    else InLists(fs, xs[..|xs| - 1]).Plus(if xs[|xs| - 1] in fs then InLines(fs[xs[|xs| - 1]]) else NOTHING)
  }

  lemma Associate(x: Found, y: Found, z: Found)
    ensures x.Plus(y).Plus(z) == x.Plus(y.Plus(z))
    ensures x.Plus(y).Plus(z) == x.Plus(z).Plus(y)
    ensures x.Plus(NOTHING) == x
  {
  }

  lemma InLinesSnoc(ls: seq<Line>, l: Line)
    ensures InLines(ls + [l]) == InLines(ls).Plus(InLine(l))
  {
    assert (ls + [l])[..|ls|] == ls;
  }

  lemma {:induction false} InListsConcat(fs: Files, xs: seq<Path>, ys: seq<Path>)
    ensures InLists(fs, xs + ys) == InLists(fs, xs).Plus(InLists(fs, ys))
  {
    if ys == [] {
      assert xs + ys == xs;
      Associate(InLists(fs, xs), NOTHING, NOTHING);
    } else {
      var n := |ys| - 1;
      assert (xs + ys)[..|xs + ys| - 1] == xs + ys[..n];
      InListsConcat(fs, xs, ys[..n]);
      Associate(InLists(fs, xs), InLists(fs, ys[..n]), if ys[n] in fs then InLines(fs[ys[n]]) else NOTHING);
    }
  }

  // ----- The order of the sources ----------------------------------------------------

  /** The sources in the order a depth-first walk meets them, and the filelists met then, for a walk that leaves out
      the filelists in `seen`. */
  function Walk(fs: Files, path: Path, seen: set<Path>): (r: (seq<Path>, set<Path>))
    ensures seen <= r.1
    decreases fs.Keys - seen, 0
  {
    if path in seen then ([], seen)
    else if path !in fs then ([], seen + {path})
    else
      assert path in fs.Keys - seen;
      WalkLines(fs, fs[path], seen + {path})
  }

  function WalkLines(fs: Files, ls: seq<Line>, seen: set<Path>): (r: (seq<Path>, set<Path>))
    ensures seen <= r.1
    decreases fs.Keys - seen, |ls| + 1
  {
    if ls == [] then ([], seen)
    else
      var first := if ls[0].Include? then Walk(fs, ls[0].path, seen)
                   else (if ls[0].Source? then [ls[0].path] else [], seen);
      assert fs.Keys - first.1 <= fs.Keys - seen;
      var rest := WalkLines(fs, ls[1..], first.1);
      (first.0 + rest.0, rest.1)
  }

  ghost predicate NoDup<T>(s: seq<T>) {
    forall i, j | 0 <= i < j < |s| :: s[i] != s[j]
  }

  // ----- The parser ------------------------------------------------------------------

  /** The collections the parser fills, and the filelists in the order they were first met. */
  datatype State = State(files: seq<Path>, incdirs: set<Path>, defines: set<Path>, seen: set<Path>, entered: seq<Path>)

  ghost predicate Tracked(s: State) {
    NoDup(s.entered) && forall x :: x in s.seen <==> x in s.entered
  }

  function Contents(s: State): Found {
    Found(multiset(s.files), s.incdirs, s.defines)
  }

  /** The filelists met since `s0`. */
  function Met(s0: State, s: State): seq<Path>
    requires s0.entered <= s.entered
  {
    s.entered[|s0.entered|..]
  }

  /** Filelists reached from `path`, whose own includes have all been met. */
  ghost predicate Expanded(fs: Files, path: Path, met: seq<Path>, seen: set<Path>) {
    && (forall x | x in met :: x in fs && Reaches(fs, path, x))
    && (forall x, y | x in met && Includes(fs, x, y) :: y in seen)
  }

  /** From `s0` to `s` some filelists were met and wholly expanded, and the lines `done` of
    * `path` itself were taken: exactly what those list was collected. */
  ghost predicate Grown(fs: Files, path: Path, s0: State, s: State, done: seq<Line>) {
    && s0.entered <= s.entered && Expanded(fs, path, Met(s0, s), s.seen)
    && (forall y | Include(y) in done :: y in s.seen)
    && Contents(s) == Contents(s0).Plus(InLines(done)).Plus(InLists(fs, Met(s0, s)))
  }

  function Enter(s: State, path: Path): State {
    s.(seen := s.seen + {path}, entered := s.entered + [path])
  }

  lemma GrownSame(fs: Files, path: Path, s: State)
    ensures Grown(fs, path, s, s, [])
  {
    Associate(Contents(s), NOTHING, NOTHING);
  }

  lemma ExpandedMore(fs: Files, path: Path, met: seq<Path>, seen: set<Path>, sub: Path, more: seq<Path>,
                     seen': set<Path>)
    requires Expanded(fs, path, met, seen) && Expanded(fs, sub, more, seen') && seen <= seen' && Includes(fs, path, sub)
    ensures Expanded(fs, path, met + more, seen')
  {
    forall x | x in more ensures Reaches(fs, path, x) {
      ReachesVia(fs, path, sub, x);
    }
  }

  lemma SeenGrows(s: State, s': State)
    requires Tracked(s) && Tracked(s') && s.entered <= s'.entered
    ensures s.seen <= s'.seen
  {
    assert forall x | x in s.entered :: x in s'.entered;
  }

  lemma GrownInclude(fs: Files, path: Path, s0: State, s: State, s': State, done: seq<Line>, line: Line)
    requires Tracked(s) && Tracked(s') && Grown(fs, path, s0, s, done) && line.Include?
    requires Includes(fs, path, line.path) && Grown(fs, line.path, s, s', []) && line.path in s'.seen
    ensures Grown(fs, path, s0, s', done + [line])
  {
    hide Expanded;
    hide InLists;
    hide InLines;
    hide Tracked;
    hide Includes;
    var met, more := Met(s0, s), Met(s, s');
    assert Met(s0, s') == met + more;
    SeenGrows(s, s');
    ExpandedMore(fs, path, met, s.seen, line.path, more, s'.seen);
    InListsConcat(fs, met, more);
    InLinesSnoc(done, line);
    NoLines();
    Associate(Contents(s), NOTHING, NOTHING);
    Associate(Contents(s0).Plus(InLines(done)), InLists(fs, met), InLists(fs, more));
    Associate(InLines(done), NOTHING, NOTHING);
  }

  lemma NoLines()
    ensures InLines([]) == NOTHING
  {
  }

  lemma GrownLine(fs: Files, path: Path, s0: State, s: State, done: seq<Line>, line: Line)
    requires Grown(fs, path, s0, s, done) && !line.Include?
    ensures Grown(fs, path, s0, Taken(s, line), done + [line])
  {
    hide Expanded;
    hide InLists;
    hide InLines;
    InLinesSnoc(done, line);
    TakenContents(s, line);
    Associate(Contents(s0).Plus(InLines(done)), InLists(fs, Met(s0, s)), InLine(line));
    Associate(Contents(s0), InLines(done), InLine(line));
  }

  function Taken(s: State, line: Line): State
    requires !line.Include?
  {
    match line
    case IncDir(p) => s.(incdirs := s.incdirs + {p})
    case Define(t) => s.(defines := s.defines + {t})
    case Source(p) => s.(files := s.files + [p])
  }

  lemma TakenContents(s: State, line: Line)
    requires !line.Include?
    ensures Contents(Taken(s, line)) == Contents(s).Plus(InLine(line))
  {
  }

  /** A filelist whose lines have all been taken counts as met and expanded. */
  lemma GrownWhole(fs: Files, path: Path, s0: State, s: State)
    requires path in fs && Tracked(s) && Grown(fs, path, Enter(s0, path), s, fs[path])
    ensures Grown(fs, path, s0, s, []) && path in s.seen
  {
    hide InLists;
    hide InLines;
    var met := Met(Enter(s0, path), s);
    assert Met(s0, s) == [path] + met;
    InListsConcat(fs, [path], met);
    OneList(fs, path);
    NoLines();
    ReachesSelf(fs, path);
    assert s.entered[|s0.entered|] == path;
    Associate(Contents(s0), NOTHING, NOTHING);
    Associate(Contents(s0), InLines(fs[path]), InLists(fs, met));
  }

  lemma OneList(fs: Files, path: Path)
    requires path in fs
    ensures InLists(fs, [path]) == InLines(fs[path])
  {
    assert [path][..0] == [];
    assert NOTHING.Plus(InLines(fs[path])) == InLines(fs[path]);
  }

  class Collector {
    var files: seq<Path>
    var incdirs: set<Path>
    var defines: set<Path>
    var seen: set<Path>
    ghost var entered: seq<Path>

    ghost function Now(): State
      reads this
    {
      State(files, incdirs, defines, seen, entered)
    }

    constructor ()
      ensures Now() == State([], {}, {}, {}, [])
    {
      files, incdirs, defines, seen, entered := [], {}, {}, {}, [];
    }

    /** Expands a filelist not met before, and all it includes. False when a filelist cannot
      * be opened. */
    method ParseFilelist(fs: Files, path: Path) returns (ok: bool)
      requires Tracked(Now())
      modifies this
      ensures Tracked(Now()) && old(seen) <= seen
      ensures ok ==> Grown(fs, path, old(Now()), Now(), []) && path in seen
      ensures ok ==> (files, seen) == (old(files) + Walk(fs, path, old(seen)).0, Walk(fs, path, old(seen)).1)
      ensures !ok ==> exists x :: Reaches(fs, path, x) && x !in fs
      decreases fs.Keys - seen
    {
      hide Grown;
      hide WalkLines;
      GrownSame(fs, path, Now());
      if path in seen {
        assert files == files + [];
        return true;
      }
      ghost var start := Now();
      seen := seen + {path};
      entered := entered + [path];
      ReachesSelf(fs, path);
      if path !in fs {
        return false;
      }
      var lines := fs[path];
      GrownSame(fs, path, Now());
      ghost var all := WalkLines(fs, lines, seen);
      assert lines[0..] == lines;
      for i := 0 to |lines|
        invariant Tracked(Now()) && old(seen) + {path} <= seen
        invariant Grown(fs, path, Enter(start, path), Now(), lines[..i])
        invariant Still(fs, lines[i..], old(files), files, seen, all)
      {
        var line := lines[i];
        ghost var before := Now();
        WalkStep(fs, lines, i, old(files), files, seen, all);
        if line.Include? {
          assert Includes(fs, path, line.path);
          ok := ParseFilelist(fs, line.path);
          if !ok {
            ghost var x :| Reaches(fs, line.path, x) && x !in fs;
            ReachesVia(fs, path, line.path, x);
            return;
          }
          GrownInclude(fs, path, Enter(start, path), before, Now(), lines[..i], line);
        } else {
          match line {
            case IncDir(p) => incdirs := incdirs + {p};
            case Define(t) => defines := defines + {t};
            case Source(p) => files := files + [p];
          }
          assert Now() == Taken(before, line);
          GrownLine(fs, path, Enter(start, path), before, lines[..i], line);
        }
        assert lines[..i + 1] == lines[..i] + [line];
      }
      assert lines[..|lines|] == lines && lines[|lines|..] == [];
      GrownWhole(fs, path, start, Now());
      WalkDone(fs, old(files), files, seen, all);
      ok := true;
    }
  }

  /** Between lines: the sources so far with those still to come are all of them. */
  ghost predicate Still(fs: Files, rest: seq<Line>, files0: seq<Path>, files: seq<Path>, seen: set<Path>,
                        all: (seq<Path>, set<Path>)) {
    var w := WalkLines(fs, rest, seen);
    files0 + all.0 == files + w.0 && all.1 == w.1
  }

  lemma WalkStep(fs: Files, lines: seq<Line>, i: nat, files0: seq<Path>, files: seq<Path>, seen: set<Path>,
                 all: (seq<Path>, set<Path>))
    requires i < |lines| && Still(fs, lines[i..], files0, files, seen, all)
    ensures var l := lines[i];
            if l.Include? then
              var w := Walk(fs, l.path, seen);
              Still(fs, lines[i + 1..], files0, files + w.0, w.1, all)
            else Still(fs, lines[i + 1..], files0, files + if l.Source? then [l.path] else [], seen, all)
  {
    hide Walk;
    assert lines[i..][1..] == lines[i + 1..];
  }

  lemma WalkDone(fs: Files, files0: seq<Path>, files: seq<Path>, seen: set<Path>, all: (seq<Path>, set<Path>))
    requires Still(fs, [], files0, files, seen, all)
    ensures files == files0 + all.0 && seen == all.1
  {
  }

  /** Resolving from nothing: it succeeds exactly when every filelist reached can be opened;
    * then each of them is expanded exactly once, and what is collected is exactly what
    * they list. */
  method Resolve(fs: Files, root: Path)
    returns (ok: bool, files: seq<Path>, incdirs: set<Path>, defines: set<Path>, ghost lists: seq<Path>)
    ensures ok <==> forall x | Reaches(fs, root, x) :: x in fs
    ensures ok ==> NoDup(lists) && forall x :: x in lists <==> Reaches(fs, root, x)
    ensures ok ==> Found(multiset(files), incdirs, defines) == InLists(fs, lists)
    ensures ok ==> files == Walk(fs, root, {}).0
    ensures ok ==> forall x | Reaches(fs, root, x) :: InOrder(SourcesOf(fs[x]), files)
    ensures ok ==> forall p :: p in incdirs <==> exists x :: Reaches(fs, root, x) && IncDir(p) in fs[x]
    ensures ok ==> forall t :: t in defines <==> exists x :: Reaches(fs, root, x) && Define(t) in fs[x]
    ensures ok ==> forall p :: p in files <==> exists x :: Reaches(fs, root, x) && Source(p) in fs[x]
  {
    hide InLists;
    hide Walk;
    hide InOrder;
    var c := new Collector();
    ok := c.ParseFilelist(fs, root);
    files, incdirs, defines, lists := c.files, c.incdirs, c.defines, c.entered;
    if ok {
      WholeGraph(fs, root, c.Now());
      forall x | Reaches(fs, root, x) ensures InOrder(SourcesOf(fs[x]), files) {
        WalkInOrder(fs, root, {}, x);
        assert files == Walk(fs, root, {}).0;
      }
      forall p: Path
        ensures p in incdirs <==> exists x :: Reaches(fs, root, x) && IncDir(p) in fs[x]
        ensures p in defines <==> exists x :: Reaches(fs, root, x) && Define(p) in fs[x]
        ensures p in files <==> exists x :: Reaches(fs, root, x) && Source(p) in fs[x]
      {
        ListedIn(fs, lists, p);
        assert p in multiset(files) <==> p in files;
      }
    }
  }

  lemma WholeGraph(fs: Files, root: Path, s: State)
    requires Tracked(s) && Grown(fs, root, State([], {}, {}, {}, []), s, []) && root in s.seen
    ensures forall x :: x in s.entered <==> Reaches(fs, root, x)
    ensures forall x | x in s.entered :: x in fs
    ensures Contents(s) == InLists(fs, s.entered)
  {
    var start := State([], {}, {}, {}, []);
    assert Met(start, s) == s.entered;
    forall x | Reaches(fs, root, x) ensures x in s.entered {
      var ch :| Along(fs, ch, root, x);
      ClosedHoldsChain(fs, s.seen, ch);
    }
    NoLines();
    Associate(NOTHING, NOTHING, InLists(fs, s.entered));
    assert Contents(start) == NOTHING;
    assert NOTHING.Plus(InLists(fs, s.entered)) == InLists(fs, s.entered);
  }

  /** What filelists contribute, line by line: their include directories, defines and sources, each to its own
      collection, and nothing else. */
  lemma {:induction false} ListedIn(fs: Files, xs: seq<Path>, p: Path)
    ensures p in InLists(fs, xs).incdirs <==> exists x :: x in xs && x in fs && IncDir(p) in fs[x]
    ensures p in InLists(fs, xs).defines <==> exists x :: x in xs && x in fs && Define(p) in fs[x]
    ensures p in InLists(fs, xs).sources <==> exists x :: x in xs && x in fs && Source(p) in fs[x]
  {
    hide InLines;
    if xs != [] {
      var n := |xs| - 1;
      ListedIn(fs, xs[..n], p);
      assert xs == xs[..n] + [xs[n]];
      if xs[n] in fs {
        InLinesHas(fs[xs[n]], p);
      }
    }
  }

  lemma {:induction false} InLinesHas(ls: seq<Line>, p: Path)
    ensures p in InLines(ls).incdirs <==> IncDir(p) in ls
    ensures p in InLines(ls).defines <==> Define(p) in ls
    ensures p in InLines(ls).sources <==> Source(p) in ls
  {
    hide InLine;
    if ls != [] {
      var n := |ls| - 1;
      InLinesHas(ls[..n], p);
      InLineHas(ls[n], p);
      assert ls == ls[..n] + [ls[n]];
    }
  }

  lemma InLineHas(l: Line, p: Path)
    ensures p in InLine(l).incdirs <==> l == IncDir(p)
    ensures p in InLine(l).defines <==> l == Define(p)
    ensures p in InLine(l).sources <==> l == Source(p)
    ensures InLine(l).sources[p] == if l == Source(p) then 1 else 0
  {
  }

  /** A source is collected as often as the filelists list it. */
  lemma {:induction false} SourceCount(fs: Files, xs: seq<Path>, p: Path)
    ensures InLists(fs, xs).sources[p] == Occurrences(fs, xs, Source(p))
  {
    hide InLines;
    if xs != [] {
      var n := |xs| - 1;
      SourceCount(fs, xs[..n], p);
      if xs[n] in fs {
        LineCount(fs[xs[n]], p);
      }
    }
  }

  lemma {:induction false} LineCount(ls: seq<Line>, p: Path)
    ensures InLines(ls).sources[p] == multiset(ls)[Source(p)]
  {
    hide InLine;
    if ls != [] {
      var n := |ls| - 1;
      LineCount(ls[..n], p);
      InLineHas(ls[n], p);
      assert ls == ls[..n] + [ls[n]];
    }
  }

  /** How often a line stands in several filelists. */
  ghost function Occurrences(fs: Files, xs: seq<Path>, l: Line): nat {
    if xs == [] then 0
    else
      var n := |xs| - 1;
      Occurrences(fs, xs[..n], l) + if xs[n] in fs then multiset(fs[xs[n]])[l] else 0
  }

  // ----- What the order means --------------------------------------------------------

  /** The sources among lines, in order. */
  ghost function SourcesOf(ls: seq<Line>): seq<Path> {
    if ls == [] then []
    else (if ls[0].Source? then [ls[0].path] else []) + SourcesOf(ls[1..])
  }

  /** The elements of `s` stand in `t` at the increasing indices `at`. */
  ghost predicate StandsAt(s: seq<Path>, t: seq<Path>, at: seq<nat>) {
    && |at| == |s| && (forall i | 0 <= i < |s| :: at[i] < |t| && t[at[i]] == s[i])
    && forall i, j | 0 <= i < j < |at| :: at[i] < at[j]
  }

  ghost predicate InOrder(s: seq<Path>, t: seq<Path>) {
    exists at :: StandsAt(s, t, at)
  }

  lemma InOrderWithin(s: seq<Path>, before: seq<Path>, t: seq<Path>, after: seq<Path>)
    requires InOrder(s, t)
    ensures InOrder(s, before + t + after)
  {
    var at :| StandsAt(s, t, at);
    assert StandsAt(s, before + t + after, seq(|at|, i requires 0 <= i < |at| => |before| + at[i]));
  }

  lemma InOrderNothing(t: seq<Path>)
    ensures InOrder([], t)
  {
    assert StandsAt([], t, []);
  }

  /** One after another. */
  lemma InOrderConcat(s1: seq<Path>, s2: seq<Path>, t1: seq<Path>, t2: seq<Path>)
    requires InOrder(s1, t1) && InOrder(s2, t2)
    ensures InOrder(s1 + s2, t1 + t2)
  {
    var at1 :| StandsAt(s1, t1, at1);
    var at2 :| StandsAt(s2, t2, at2);
    assert StandsAt(s1 + s2, t1 + t2, at1 + seq(|at2|, i requires 0 <= i < |at2| => |t1| + at2[i]));
  }

  /** A walk gives the sources of every filelist it meets in the order of that filelist's lines. */
  lemma {:induction false} WalkInOrder(fs: Files, path: Path, seen: set<Path>, x: Path)
    requires x in Walk(fs, path, seen).1 && x !in seen && x in fs
    ensures InOrder(SourcesOf(fs[x]), Walk(fs, path, seen).0)
    decreases fs.Keys - seen, 0
  {
    if path in fs {
      assert path in fs.Keys - seen;
      WalkLinesInOrder(fs, fs[path], seen + {path}, x);
    }
  }

  lemma {:induction false} WalkLinesInOrder(fs: Files, ls: seq<Line>, seen: set<Path>, x: Path)
    ensures InOrder(SourcesOf(ls), WalkLines(fs, ls, seen).0)
    ensures x in WalkLines(fs, ls, seen).1 && x !in seen && x in fs ==>
              InOrder(SourcesOf(fs[x]), WalkLines(fs, ls, seen).0)
    decreases fs.Keys - seen, |ls| + 1
  {
    hide InOrder;
    if ls == [] {
      InOrderNothing([]);
    } else {
      var first, here := FirstWalk(fs, ls, seen), if ls[0].Source? then [ls[0].path] else [];
      var rest := WalkLines(fs, ls[1..], first.1);
      assert fs.Keys - first.1 <= fs.Keys - seen;
      WalkLinesInOrder(fs, ls[1..], first.1, x);
      FirstInOrder(fs, ls, seen);
      InOrderConcat(here, SourcesOf(ls[1..]), first.0, rest.0);
      if x in rest.1 && x !in seen && x in fs {
        if x in first.1 {
          WalkInOrder(fs, ls[0].path, seen, x);
          InOrderWithin(SourcesOf(fs[x]), [], first.0, rest.0);
          assert [] + first.0 + rest.0 == first.0 + rest.0;
        } else {
          InOrderWithin(SourcesOf(fs[x]), first.0, rest.0, []);
          assert first.0 + rest.0 + [] == first.0 + rest.0;
        }
      }
    }
  }

  /** What the first line adds to a walk. */
  ghost function FirstWalk(fs: Files, ls: seq<Line>, seen: set<Path>): (r: (seq<Path>, set<Path>))
    requires ls != []
    ensures seen <= r.1
    ensures WalkLines(fs, ls, seen)
         == (r.0 + WalkLines(fs, ls[1..], r.1).0, WalkLines(fs, ls[1..], r.1).1)
  {
    if ls[0].Include? then Walk(fs, ls[0].path, seen) else (if ls[0].Source? then [ls[0].path] else [], seen)
  }

  lemma FirstInOrder(fs: Files, ls: seq<Line>, seen: set<Path>)
    requires ls != []
    ensures InOrder(if ls[0].Source? then [ls[0].path] else [], FirstWalk(fs, ls, seen).0)
  {
    var t := FirstWalk(fs, ls, seen).0;
    if ls[0].Source? {
      assert StandsAt([ls[0].path], t, [0]);
    } else {
      InOrderNothing(t);
    }
  }

  /** The sources an included filelist brings stand between those of the lines before and after its line. */
  lemma {:induction false} IncludedBetween(fs: Files, before: seq<Line>, y: Path, after: seq<Line>, seen: set<Path>)
    requires forall l | l in before :: !l.Include?
    ensures var w := Walk(fs, y, seen);
            WalkLines(fs, before + [Include(y)] + after, seen).0
            == SourcesOf(before) + w.0 + WalkLines(fs, after, w.1).0
  {
    hide WalkLines;
    hide Walk;
    var ls := before + [Include(y)] + after;
    var first := FirstWalk(fs, ls, seen);
    if before == [] {
      assert ls[1..] == after;
      assert SourcesOf(before) + first.0 == first.0;
    } else {
      assert ls[1..] == before[1..] + [Include(y)] + after;
      IncludedBetween(fs, before[1..], y, after, seen);
      var w := Walk(fs, y, seen);
      assert first.1 == seen && SourcesOf(before) == first.0 + SourcesOf(before[1..]);
      assert first.0 + (SourcesOf(before[1..]) + w.0 + WalkLines(fs, after, w.1).0)
          == first.0 + SourcesOf(before[1..]) + w.0 + WalkLines(fs, after, w.1).0;
    }
  }

  // ----- Removing duplicates ---------------------------------------------------------

  /** The elements that do not occur earlier, in order. */
  ghost function Firsts(s: seq<Path>): seq<Path> {
    if s == [] then []
    else
      var n := |s| - 1;
      Firsts(s[..n]) + if s[n] in s[..n] then [] else [s[n]]
  }

  /** The deduplication in `main`. */
  method Deduplicate(files: seq<Path>) returns (unique: seq<Path>)
    ensures unique == Firsts(files)
  {
    var seen: set<Path> := {};
    unique := [];
    for i := 0 to |files|
      invariant unique == Firsts(files[..i]) && forall x :: x in seen <==> x in files[..i]
    {
      assert files[..i + 1][..i] == files[..i];
      if files[i] !in seen {
        seen := seen + {files[i]};
        unique := unique + [files[i]];
      }
    }
    assert files[..|files|] == files;
  }

  /** `i` is where `x` first occurs in `s`. */
  ghost predicate FirstAt(s: seq<Path>, x: Path, i: nat) {
    i < |s| && s[i] == x && x !in s[..i]
  }

  /** The result has each element once, and keeps the order of first occurrences. */
  lemma {:induction false} FirstsInOrder(s: seq<Path>)
    ensures NoDup(Firsts(s)) && forall x :: x in Firsts(s) <==> x in s
    ensures forall i: nat, j: nat, p: nat, q: nat
              | i < j < |Firsts(s)| && FirstAt(s, Firsts(s)[i], p) && FirstAt(s, Firsts(s)[j], q) :: p < q
  {
    if s != [] {
      var n := |s| - 1;
      var t := s[..n];
      FirstsInOrder(t);
      assert s == t + [s[n]];
      forall i: nat, j: nat, p: nat, q: nat
        | i < j < |Firsts(s)| && FirstAt(s, Firsts(s)[i], p) && FirstAt(s, Firsts(s)[j], q)
        ensures p < q
      {
        assert i < |Firsts(t)| && Firsts(t)[i] == Firsts(s)[i];
        FirstInPrefix(s, Firsts(s)[i], p);
        FirstInPrefix(s, Firsts(s)[j], q);
      }
    }
  }

  /** An element's first occurrence is in the prefix when it occurs there. */
  lemma FirstInPrefix(s: seq<Path>, x: Path, p: nat)
    requires FirstAt(s, x, p)
    ensures var n := |s| - 1; if x in s[..n] then p < n && FirstAt(s[..n], x, p) else p == n
  {
    var n := |s| - 1;
    if p < n {
      assert s[..p] == s[..n][..p];
      assert s[..n][p] == x;
    }
  }
}
