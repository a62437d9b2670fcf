/** The call tree that `ftrace.py` draws from an instruction trace. */
module Ftrace {
  import opened Common

  // ----- Symbols ---------------------------------------------------------------------

  /** Symbol addresses in increasing order, and the name at each. */
  datatype Symbols = Symbols(addrs: seq<nat>, names: map<nat, string>) {
    predicate Valid() {
      (forall i, j :: 0 <= i < j < |addrs| ==> addrs[i] < addrs[j])
      && forall i :: 0 <= i < |addrs| ==> addrs[i] in names
    }
  }

  /** A symbol and an offset from it, or nothing. */
  datatype Place = Unknown | Within(name: string, offset: nat)

  /** `bisect_right`: how many elements of a sorted list are not above `x`. */
  function BisectRight(a: seq<nat>, x: nat): (i: nat)
    requires forall i, j :: 0 <= i < j < |a| ==> a[i] < a[j]
    ensures i <= |a| && (forall k :: 0 <= k < i ==> a[k] <= x) && (forall k :: i <= k < |a| ==> x < a[k])
  {
    if a == [] then 0 else if a[|a| - 1] <= x then |a| else BisectRight(a[..|a| - 1], x)
  }

  /** `resolve`: the greatest symbol not above an address. */
  function Resolve(addr: nat, syms: Symbols): (p: Place)
    requires syms.Valid()
    ensures p.Unknown? <==> forall a :: a in syms.addrs ==> addr < a
    ensures p.Within? ==>
              exists a :: a in syms.addrs && p.name == syms.names[a] && a + p.offset == addr
                          && forall b :: b in syms.addrs && b <= addr ==> b <= a
  {
    var i := BisectRight(syms.addrs, addr);
    if i == 0 then Unknown
    else
      var base := syms.addrs[i - 1];
      assert base in syms.addrs;
      Within(syms.names[base], addr - base)
  }

  // ----- The trace -------------------------------------------------------------------

  /** A line of the trace: `first` is the operand before the first comma, `operands` are all of them. */
  datatype Record = Record(time: nat, pc: nat, mnem: string, first: string, operands: seq<string>)

  datatype Kind = Call | Return | Other

  predicate LinkRegister(op: string) { op == "ra" || op == "x1" || op == "t0" || op == "x5" }

  /** What an instruction does to the call stack. */
  function KindOf(r: Record): Kind {
    if r.mnem == "jal" then (if LinkRegister(r.first) then Call else Other)
    else if r.mnem == "c.jal" then Call
    else if r.mnem == "jalr" then (if LinkRegister(r.first) then Call else Other)
    else if r.mnem == "c.jalr" then Call
    else if r.mnem == "ret" then Return
    else if r.mnem == "c.jr" && (exists i :: 0 <= i < |r.operands| && LinkRegister(r.operands[i])) then Return
    else Other
  }

  // ----- Output ----------------------------------------------------------------------

  /** Lines of output; `pc` is the instruction the transfer comes from. */
  datatype Line =
    | Open(time: nat, pc: Option<nat>, depth: nat, place: Place)
    | Close(time: nat, pc: Option<nat>, depth: nat, place: Place)
    | Unmatched(time: nat, pc: Option<nat>, depth: nat)
    | Eof(time: nat, pc: Option<nat>, depth: nat, place: Place)
  {
    predicate Closes() { Close? || Eof? }
  }

  /** A frame of the stack: where it was entered. */
  datatype Frame = Frame(pc: nat, place: Place, time: nat)

  /** The stack and the lines written so far. */
  datatype State = State(stack: seq<Frame>, lines: seq<Line>)

  function Step(s: State, prev: Record, cur: Record, syms: Symbols): State
    requires syms.Valid()
  {
    var place := Resolve(cur.pc, syms);
    match KindOf(prev)
    case Call =>
      State(s.stack + [Frame(cur.pc, place, cur.time)], s.lines + [Open(cur.time, Some(prev.pc), |s.stack|, place)])
    case Return =>
      if s.stack == [] then State([], s.lines + [Unmatched(cur.time, Some(prev.pc), 0)])
      else State(s.stack[..|s.stack| - 1], s.lines + [Close(cur.time, Some(prev.pc), |s.stack| - 1, place)])
    case Other => s
  }

  /** The first instruction enters a function. */
  function Entered(cur: Record, syms: Symbols): State
    requires syms.Valid()
  {
    var place := Resolve(cur.pc, syms);
    State([Frame(cur.pc, place, cur.time)], [Open(cur.time, None, 0, place)])
  }

  /** After the records of the trace. */
  function After(trace: seq<Record>, syms: Symbols): State
    requires syms.Valid()
  {
    if trace == [] then State([], [])
    else if |trace| == 1 then Entered(trace[0], syms)
    else Step(After(trace[..|trace| - 1], syms), trace[|trace| - 2], trace[|trace| - 1], syms)
  }

  /** The lines that close what is still open at the end, innermost first. */
  function Closing(stack: seq<Frame>, last: Record): seq<Line> {
    if stack == [] then []
    else [Eof(last.time, Some(last.pc), |stack| - 1, stack[|stack| - 1].place)] + Closing(stack[..|stack| - 1], last)
  }

  /** Everything there is to write. */
  function Lines(trace: seq<Record>, syms: Symbols): seq<Line>
    requires syms.Valid()
  {
    var s := After(trace, syms);
    s.lines + if trace == [] then [] else Closing(s.stack, trace[|trace| - 1])
  }

  predicate Shown(l: Line, maxDepth: Option<nat>) { maxDepth.Some? ==> l.depth <= maxDepth.value }

  /** The lines not too deep. */
  function Filter(lines: seq<Line>, maxDepth: Option<nat>): (r: seq<Line>)
  {
    if lines == [] then []
    else
      var init := Filter(lines[..|lines| - 1], maxDepth);
      if Shown(lines[|lines| - 1], maxDepth) then init + [lines[|lines| - 1]] else init
  }

  // ----- Nesting ---------------------------------------------------------------------

  /** The lines that are open after all of `lines`, outermost first, if every line stands at the depth it must: an
      opening line as deep as there are open ones, a closing line as deep as the one it closes, an unmatched return
      where nothing is open. A line that closes at the end of the file names what it closes. */
  function OpenLines(lines: seq<Line>): (r: Option<seq<Line>>)
  {
    if lines == [] then Some([])
    else
      match OpenLines(lines[..|lines| - 1])
      case None => None
      case Some(s) => Nest(s, lines[|lines| - 1])
  }

  function Nest(s: seq<Line>, l: Line): Option<seq<Line>> {
    match l
    case Open(_, _, depth, _) => if depth == |s| then Some(s + [l]) else None
    case Unmatched(_, _, depth) => if s == [] && depth == 0 then Some([]) else None
    case Close(_, _, depth, _) => if |s| > 0 && depth == |s| - 1 then Some(s[..|s| - 1]) else None
    case Eof(_, _, depth, place) =>
      if |s| > 0 && depth == |s| - 1 && s[|s| - 1].Open? && s[|s| - 1].place == place then Some(s[..|s| - 1]) else None
  }

  predicate WellNested(lines: seq<Line>) { OpenLines(lines) == Some([]) }

  /** Line `i` opens what line `j` closes. */
  predicate Matches(lines: seq<Line>, i: nat, j: nat)
    requires i < j < |lines|
  {
    lines[i].Open? && lines[j].Closes() && lines[i].depth == lines[j].depth
    && (lines[j].Eof? ==> lines[i].place == lines[j].place)
    && forall k :: i < k < j ==> lines[k].depth > lines[i].depth
  }

  /** Every line that opens is closed by one line, and every line that closes closes one. */
  ghost predicate Paired(lines: seq<Line>) {
    && (forall i :: 0 <= i < |lines| && lines[i].Open? ==> exists j :: i < j < |lines| && Matches(lines, i, j))
    && (forall j :: 0 <= j < |lines| && lines[j].Closes() ==> exists i :: 0 <= i < j && Matches(lines, i, j))
  }

  lemma MatchUnique(lines: seq<Line>, i: nat, i': nat, j: nat, j': nat)
    requires i < j < |lines| && i' < j' < |lines| && Matches(lines, i, j) && Matches(lines, i', j')
    ensures i == i' <==> j == j'
  {
  }

  /** The stack of open lines mirrors the stack of frames. */
  ghost predicate Tracks(s: State) {
    OpenLines(s.lines).Some? && Mirrors(OpenLines(s.lines).value, s.stack)
  }

  predicate Mirrors(open_: seq<Line>, stack: seq<Frame>) {
    |open_| == |stack| && forall l :: 0 <= l < |stack| ==> open_[l].Open? && open_[l].place == stack[l].place
  }

  lemma Snoc(lines: seq<Line>, l: Line)
    ensures OpenLines(lines + [l]) == (match OpenLines(lines) case None => None case Some(s) => Nest(s, l))
  {
    assert (lines + [l])[..|lines|] == lines;
  }

  lemma StepTracks(s: State, prev: Record, cur: Record, syms: Symbols)
    requires syms.Valid() && Tracks(s)
    ensures Tracks(Step(s, prev, cur, syms))
  {
    hide OpenLines;
    hide Resolve;
    var t := Step(s, prev, cur, syms);
    if t.lines != s.lines {
      Snoc(s.lines, t.lines[|s.lines|]);
    }
  }

  lemma {:induction false} AfterTracks(trace: seq<Record>, syms: Symbols)
    requires syms.Valid()
    ensures Tracks(After(trace, syms))
  {
    if |trace| == 1 {
      assert OpenLines([]) == Some([]);
      Snoc([], After(trace, syms).lines[0]);
    } else if |trace| > 1 {
      AfterTracks(trace[..|trace| - 1], syms);
      StepTracks(After(trace[..|trace| - 1], syms), trace[|trace| - 2], trace[|trace| - 1], syms);
    }
  }

  lemma {:induction false} ClosingTracks(s: State, last: Record)
    requires Tracks(s)
    ensures WellNested(s.lines + Closing(s.stack, last))
    decreases s.stack
  {
    hide OpenLines;
    if s.stack == [] {
      assert s.lines + [] == s.lines;
    } else {
      var n := |s.stack| - 1;
      var l := Eof(last.time, Some(last.pc), n, s.stack[n].place);
      Snoc(s.lines, l);
      ClosingTracks(State(s.stack[..n], s.lines + [l]), last);
      assert s.lines + Closing(s.stack, last) == s.lines + [l] + Closing(s.stack[..n], last);
    }
  }

  /** Whatever the trace, the output nests. */
  lemma LinesNested(trace: seq<Record>, syms: Symbols)
    requires syms.Valid()
    ensures WellNested(Lines(trace, syms))
  {
    AfterTracks(trace, syms);
    if trace != [] {
      ClosingTracks(After(trace, syms), trace[|trace| - 1]);
    }
  }

  /** The open lines of the filtered output are the outermost open lines of the output. */
  function Outermost(s: seq<Line>, maxDepth: Option<nat>): seq<Line> {
    if maxDepth.Some? && maxDepth.value < |s| then s[..maxDepth.value + 1] else s
  }

  lemma OutermostStep(s: seq<Line>, l: Line, maxDepth: Option<nat>)
    requires Nest(s, l).Some?
    ensures (if Shown(l, maxDepth) then Nest(Outermost(s, maxDepth), l) else Some(Outermost(s, maxDepth)))
         == Some(Outermost(Nest(s, l).value, maxDepth))
  {
    if maxDepth.Some? {
      var n := maxDepth.value + 1;
      if l.Open? && n <= |s| + 1 {
        assert (s + [l])[..n] == if n <= |s| then s[..n] else s + [l];
      } else if l.Closes() && n <= |s| {
        assert s[..n] == if n < |s| then s[..|s| - 1][..n] else s;
      }
    }
  }

  lemma {:induction false} FilterOpen(lines: seq<Line>, maxDepth: Option<nat>)
    requires OpenLines(lines).Some?
    ensures OpenLines(Filter(lines, maxDepth)) == Some(Outermost(OpenLines(lines).value, maxDepth))
  {
    if lines != [] {
      var init, l := lines[..|lines| - 1], lines[|lines| - 1];
      FilterOpen(init, maxDepth);
      Snoc(Filter(init, maxDepth), l);
      OutermostStep(OpenLines(init).value, l, maxDepth);
    }
  }

  /** The line that opened level `l`; nothing since has come back to that level. */
  lemma {:induction false} OpenerOf(lines: seq<Line>, l: nat) returns (i: nat)
    requires OpenLines(lines).Some? && l < |OpenLines(lines).value|
    ensures i < |lines| && lines[i] == OpenLines(lines).value[l] && lines[i].Open? && lines[i].depth == l
    ensures forall k :: i < k < |lines| ==> lines[k].depth > l
  {
    var n := |lines| - 1;
    if lines[n].Open? && l == |OpenLines(lines).value| - 1 {
      i := n;
    } else {
      i := OpenerOf(lines[..n], l);
    }
  }

  lemma {:induction false} PrefixNests(lines: seq<Line>, n: nat)
    requires n <= |lines| && OpenLines(lines).Some?
    ensures OpenLines(lines[..n]).Some?
    decreases |lines|
  {
    if n < |lines| {
      PrefixNests(lines[..|lines| - 1], n);
      assert lines[..|lines| - 1][..n] == lines[..n];
    } else {
      assert lines[..n] == lines;
    }
  }

  lemma OpenedBefore(lines: seq<Line>, j: nat) returns (i: nat)
    requires j < |lines| && OpenLines(lines).Some? && lines[j].Closes()
    ensures i < j && Matches(lines, i, j)
  {
    PrefixNests(lines, j + 1);
    assert lines[..j + 1][..j] == lines[..j];
    i := OpenerOf(lines[..j], |OpenLines(lines[..j]).value| - 1);
  }

  /** A line that opens is closed, or open at the end. */
  lemma {:induction false} ClosedOrOpen(lines: seq<Line>, i: nat)
    requires i < |lines| && OpenLines(lines).Some? && lines[i].Open?
    ensures (exists j :: i < j < |lines| && Matches(lines, i, j))
         || (lines[i].depth < |OpenLines(lines).value|
             && forall k :: i < k < |lines| ==> lines[k].depth > lines[i].depth)
  {
    var n := |lines| - 1;
    if i < n {
      var init := lines[..n];
      ClosedOrOpen(init, i);
      if j :| i < j < n && Matches(init, i, j) {
        assert Matches(lines, i, j);
      } else if lines[n].depth <= lines[i].depth {
        var o := OpenedBefore(lines, n);
        assert init[i].depth > lines[o].depth || o >= i;
      }
    }
  }

  lemma NestedPaired(lines: seq<Line>)
    requires WellNested(lines)
    ensures Paired(lines)
  {
    forall i | 0 <= i < |lines| && lines[i].Open?
      ensures exists j :: i < j < |lines| && Matches(lines, i, j)
    {
      ClosedOrOpen(lines, i);
    }
    forall j | 0 <= j < |lines| && lines[j].Closes()
      ensures exists i :: 0 <= i < j && Matches(lines, i, j)
    {
      var i := OpenedBefore(lines, j);
    }
  }

  /** Whatever the trace and the depth limit, the output is well nested and its lines are paired. */
  lemma OutputPaired(trace: seq<Record>, syms: Symbols, maxDepth: Option<nat>)
    requires syms.Valid()
    ensures WellNested(Filter(Lines(trace, syms), maxDepth)) && Paired(Filter(Lines(trace, syms), maxDepth))
  {
    LinesNested(trace, syms);
    FilterOpen(Lines(trace, syms), maxDepth);
    NestedPaired(Filter(Lines(trace, syms), maxDepth));
  }

  // ----- What stands in the output ---------------------------------------------------

  /** A jump and link through a link register, or a compressed one. */
  predicate Calls(r: Record) {
    r.mnem in ["c.jal", "c.jalr"] || (r.mnem in ["jal", "jalr"] && r.first in ["ra", "x1", "t0", "x5"])
  }

  /** "ret", or a compressed jump that names a link register. */
  predicate Returns(r: Record) {
    r.mnem == "ret"
    || (r.mnem == "c.jr" && exists i :: 0 <= i < |r.operands| && r.operands[i] in ["ra", "x1", "t0", "x5"])
  }

  lemma KindIs(r: Record)
    ensures KindOf(r) == Call <==> Calls(r)
    ensures KindOf(r) == Return <==> Returns(r)
  {
    forall op: string ensures LinkRegister(op) <==> op in ["ra", "x1", "t0", "x5"] {
    }
  }

  /** The indices of the instructions that a call or a return leads to, in order. */
  ghost function Targets(trace: seq<Record>): seq<nat> {
    if |trace| <= 1 then []
    else
      var n := |trace| - 1;
      Targets(trace[..n]) + if Calls(trace[n - 1]) || Returns(trace[n - 1]) then [n] else []
  }

  lemma {:induction false} TargetsAre(trace: seq<Record>)
    ensures forall k :: k in Targets(trace) <==> 0 < k < |trace| && (Calls(trace[k - 1]) || Returns(trace[k - 1]))
    ensures forall i, j :: 0 <= i < j < |Targets(trace)| ==> Targets(trace)[i] < Targets(trace)[j]
  {
    hide Calls;
    hide Returns;
    if |trace| > 1 {
      var init := trace[..|trace| - 1];
      TargetsAre(init);
      assert forall i :: 0 <= i < |Targets(init)| ==> Targets(init)[i] in Targets(init);
    }
  }

  /** The line for a call or return from `prev` to `cur`: it opens what was called, or closes it or is unmatched. */
  predicate LineFor(l: Line, prev: Record, cur: Record, syms: Symbols)
    requires syms.Valid()
  {
    && l.time == cur.time && l.pc == Some(prev.pc)
    && (l.Open? <==> Calls(prev)) && (l.Close? || l.Unmatched? <==> Returns(prev))
    && (l.Open? || l.Close? ==> l.place == Resolve(cur.pc, syms))
  }

  /** A line for the first instruction, one for each call and return, in order, and then only lines that close what is
      open at the end. */
  ghost predicate Complete(trace: seq<Record>, syms: Symbols, lines: seq<Line>)
    requires syms.Valid()
  {
    var ks := Targets(trace);
    if trace == [] then lines == []
    else
      && |ks| + 1 <= |lines| && (forall i :: 0 <= i < |ks| ==> 0 < ks[i] < |trace|)
      && lines[0] == Open(trace[0].time, None, 0, Resolve(trace[0].pc, syms))
      && (forall i :: 0 <= i < |ks| ==> LineFor(lines[i + 1], trace[ks[i] - 1], trace[ks[i]], syms))
      && forall j :: |ks| + 1 <= j < |lines| ==>
           lines[j].Eof? && lines[j].time == trace[|trace| - 1].time && lines[j].pc == Some(trace[|trace| - 1].pc)
  }

  lemma {:induction false} AfterComplete(trace: seq<Record>, syms: Symbols)
    requires syms.Valid()
    ensures Complete(trace, syms, After(trace, syms).lines)
    ensures trace != [] ==> |After(trace, syms).lines| == |Targets(trace)| + 1
  {
    hide Resolve;
    hide Calls;
    hide Returns;
    hide LineFor;
    hide Step;
    if |trace| > 1 {
      var n := |trace| - 1;
      var init := trace[..n];
      AfterComplete(init, syms);
      var ks, lines := Targets(init), After(init, syms).lines;
      StepLine(After(init, syms), trace[n - 1], trace[n], syms);
      var lines' := After(trace, syms).lines;
      forall i | 0 <= i < |ks|
        ensures 0 < ks[i] < |trace| && LineFor(lines'[i + 1], trace[ks[i] - 1], trace[ks[i]], syms)
      {
        assert lines'[i + 1] == lines[i + 1];
        assert init[ks[i] - 1] == trace[ks[i] - 1] && init[ks[i]] == trace[ks[i]];
      }
    }
  }

  /** A step writes the line for its call or return, or none. */
  lemma StepLine(s: State, prev: Record, cur: Record, syms: Symbols)
    requires syms.Valid()
    ensures var lines := Step(s, prev, cur, syms).lines;
            if Calls(prev) || Returns(prev)
            then |lines| == |s.lines| + 1 && lines[..|s.lines|] == s.lines && LineFor(lines[|s.lines|], prev, cur, syms)
            else lines == s.lines
  {
    hide Resolve;
    hide Calls;
    hide Returns;
    hide KindOf;
    KindIs(prev);
  }

  lemma {:induction false} ClosingLines(stack: seq<Frame>, last: Record)
    ensures forall l :: l in Closing(stack, last) ==> l.Eof? && l.time == last.time && l.pc == Some(last.pc)
  {
    if stack != [] {
      ClosingLines(stack[..|stack| - 1], last);
    }
  }

  /** The output without a depth limit is complete. */
  lemma LinesComplete(trace: seq<Record>, syms: Symbols)
    requires syms.Valid()
    ensures Complete(trace, syms, Lines(trace, syms))
  {
    hide Resolve;
    hide LineFor;
    hide Targets;
    AfterComplete(trace, syms);
    if trace != [] {
      var last := trace[|trace| - 1];
      var s := After(trace, syms);
      ClosingLines(s.stack, last);
      forall j | |Targets(trace)| + 1 <= j < |Lines(trace, syms)|
        ensures var l := Lines(trace, syms)[j]; l.Eof? && l.time == last.time && l.pc == Some(last.pc)
      {
        assert Lines(trace, syms)[j] in Closing(s.stack, last);
      }
    }
  }

  /** A depth limit leaves the lines that are not deeper, in order, and all of them. */
  lemma {:induction false} FilterIs(lines: seq<Line>, maxDepth: Option<nat>)
    ensures maxDepth.None? ==> Filter(lines, maxDepth) == lines
    ensures maxDepth.Some? ==>
              multiset(Filter(lines, maxDepth)) <= multiset(lines)
              && forall l :: multiset(Filter(lines, maxDepth))[l]
                             == if l.depth <= maxDepth.value then multiset(lines)[l] else 0
  {
    if lines != [] {
      var n := |lines| - 1;
      FilterIs(lines[..n], maxDepth);
      assert lines == lines[..n] + [lines[n]];
    }
  }

  // ----- The script ------------------------------------------------------------------

  method WriteLine(lines: seq<Line>, l: Line, maxDepth: Option<nat>, ghost all: seq<Line>) returns (r: seq<Line>)
    requires lines == Filter(all, maxDepth)
    ensures r == Filter(all + [l], maxDepth)
  {
    assert (all + [l])[..|all|] == all;
    if maxDepth.Some? && l.depth > maxDepth.value {
      return lines;
    }
    r := lines + [l];
  }

  method Trace(trace: seq<Record>, syms: Symbols, maxDepth: Option<nat>) returns (out: seq<Line>)
    requires syms.Valid()
    ensures out == Filter(Lines(trace, syms), maxDepth)
    ensures WellNested(out) && Paired(out)
    ensures maxDepth == None ==> Complete(trace, syms, out)
  {
    hide Complete;
    hide Filter;
    hide Resolve;
    hide WellNested;
    hide Paired;
    out := [];
    var stack: seq<Frame> := [];
    var prev: Option<Record> := None;
    ghost var all: seq<Line> := [];
    FilterNone(maxDepth);
    for k := 0 to |trace|
      invariant prev == if k == 0 then None else Some(trace[k - 1])
      invariant After(trace[..k], syms) == State(stack, all) && out == Filter(all, maxDepth)
    {
      var cur := trace[k];
      AfterSnoc(trace, k, syms);
      if prev == None {
        var l := Open(cur.time, None, 0, Resolve(cur.pc, syms));
        out := WriteLine(out, l, maxDepth, all);
        stack, all := stack + [Frame(cur.pc, Resolve(cur.pc, syms), cur.time)], all + [l];
        prev := Some(cur);
        continue;
      }
      var place := Resolve(cur.pc, syms);
      if KindOf(prev.value) == Call {
        var l := Open(cur.time, Some(prev.value.pc), |stack|, place);
        out := WriteLine(out, l, maxDepth, all);
        stack, all := stack + [Frame(cur.pc, place, cur.time)], all + [l];
      } else if KindOf(prev.value) == Return {
        if stack != [] {
          stack := stack[..|stack| - 1];
          var l := Close(cur.time, Some(prev.value.pc), |stack|, place);
          out := WriteLine(out, l, maxDepth, all);
          all := all + [l];
        } else {
          var l := Unmatched(cur.time, Some(prev.value.pc), 0);
          out := WriteLine(out, l, maxDepth, all);
          all := all + [l];
        }
      }
      prev := Some(cur);
    }
    assert trace[..|trace|] == trace;
    OutputPaired(trace, syms, maxDepth);
    LinesComplete(trace, syms);
    FilterIs(Lines(trace, syms), maxDepth);
    if prev.Some? {
      out := CloseOpen(out, stack, prev.value, maxDepth, all);
    } else {
      assert all + [] == all;
    }
  }

  /** Closes the frames still open at the end of the trace. */
  method CloseOpen(lines: seq<Line>, stack0: seq<Frame>, last: Record, maxDepth: Option<nat>, ghost all0: seq<Line>)
    returns (out: seq<Line>)
    requires lines == Filter(all0, maxDepth)
    ensures out == Filter(all0 + Closing(stack0, last), maxDepth)
  {
    hide Filter;
    out := lines;
    var stack := stack0;
    ghost var all := all0;
    while stack != []
      invariant all0 + Closing(stack0, last) == all + Closing(stack, last) && out == Filter(all, maxDepth)
      decreases |stack|
    {
      var frame := stack[|stack| - 1];
      ghost var rest := Closing(stack[..|stack| - 1], last);
      stack := stack[..|stack| - 1];
      var l := Eof(last.time, Some(last.pc), |stack|, frame.place);
      out := WriteLine(out, l, maxDepth, all);
      assert all + ([l] + rest) == all + [l] + rest;
      all := all + [l];
    }
    assert all + [] == all;
  }

  lemma FilterNone(maxDepth: Option<nat>)
    ensures Filter([], maxDepth) == []
  {
  }

  lemma AfterSnoc(trace: seq<Record>, k: nat, syms: Symbols)
    requires syms.Valid() && k < |trace|
    ensures k == 0 ==> After(trace[..k + 1], syms) == Entered(trace[0], syms)
    ensures k > 0 ==> After(trace[..k + 1], syms) == Step(After(trace[..k], syms), trace[k - 1], trace[k], syms)
  {
    assert trace[..k + 1][..k] == trace[..k];
  }
}
