/** Relative scope names (`SetRelScope` of `sv_scoped.cc`). */
module ScopeName {
  import opened Common

  // ----- Components ------------------------------------------------------------------

  /** `s.rfind('.', end - 1)`: the last dot before `end`. */
  function RFind(s: string, end: nat): (r: Option<nat>)
    requires end <= |s|
    ensures r.Some? ==> r.value < end
  {
    if end == 0 then None else if s[end - 1] == '.' then Some(end - 1) else RFind(s, end - 1)
  }

  lemma {:induction false} RFindIs(s: string, end: nat)
    requires end <= |s|
    ensures var r := RFind(s, end);
            if r.Some? then s[r.value] == '.' && '.' !in s[r.value + 1..end] else '.' !in s[..end]
  {
    if end > 0 && s[end - 1] != '.' {
      RFindIs(s, end - 1);
    }
  }

  /** The components of a scope name, at least one. */
  function Split(s: string): (c: seq<string>)
    ensures |c| > 0
    decreases |s|
  {
    match RFind(s, |s|)
    case None => [s]
    case Some(d) => Split(s[..d]) + [s[d + 1..]]
  }

  function Join(c: seq<string>): string
    requires |c| > 0
  {
    if |c| == 1 then c[0] else Join(c[..|c| - 1]) + "." + c[|c| - 1]
  }

  /** A name is its last component, or that after a dot. */
  lemma LastComponent(s: string)
    ensures var r := RFind(s, |s|);
            if r.Some? then s == s[..r.value] + "." + s[r.value + 1..] && '.' !in s[r.value + 1..] else '.' !in s
  {
    hide RFind;
    RFindIs(s, |s|);
    match RFind(s, |s|)
    case None => assert s[..|s|] == s;
    case Some(d) => CutAt(s, d);
  }

  lemma CutAt(s: string, d: nat)
    requires d < |s| && s[d] == '.' && '.' !in s[d + 1..|s|]
    ensures s == s[..d] + "." + s[d + 1..] && '.' !in s[d + 1..]
  {
    assert s[d + 1..] == s[d + 1..|s|];
  }

  /** Components hold no dot, and joined they are the name. */
  lemma {:induction false} JoinSplit(s: string)
    ensures Join(Split(s)) == s && forall i :: 0 <= i < |Split(s)| ==> '.' !in Split(s)[i]
    decreases |s|
  {
    hide RFind;
    LastComponent(s);
    match RFind(s, |s|)
    case None =>
    case Some(d) =>
      JoinSplit(s[..d]);
      assert Split(s)[..|Split(s)| - 1] == Split(s[..d]);
  }

  lemma {:induction false} LastDot(a: string, b: string, k: nat)
    requires '.' !in b && k <= |b|
    ensures RFind(a + "." + b, |a| + 1 + k) == Some(|a|)
    decreases k
  {
    if k > 0 {
      assert (a + "." + b)[|a| + k] == b[k - 1];
      LastDot(a, b, k - 1);
    }
  }

  /** One more component. */
  lemma SplitSnoc(a: string, last: string)
    requires '.' !in last
    ensures Split(a + "." + last) == Split(a) + [last]
  {
    hide RFind;
    LastDot(a, last, |last|);
    var s := a + "." + last;
    assert s[..|a|] == a && s[|a| + 1..] == last;
  }

  lemma SplitOne(s: string)
    requires '.' !in s
    ensures Split(s) == [s]
  {
    hide RFind;
    RFindIs(s, |s|);
  }

  /** Only one dotless list joins to a name. */
  lemma {:induction false} SplitJoin(c: seq<string>)
    requires |c| > 0 && forall i :: 0 <= i < |c| ==> '.' !in c[i]
    ensures Split(Join(c)) == c
  {
    hide Split;
    var n := |c| - 1;
    if n == 0 {
      SplitOne(c[0]);
    } else {
      SplitJoin(c[..n]);
      SplitSnoc(Join(c[..n]), c[n]);
    }
  }

  /** The components of two names with a dot between are the components of both. */
  lemma {:induction false} SplitConcat(a: string, b: string)
    ensures Split(a + "." + b) == Split(a) + Split(b)
    decreases |b|
  {
    hide RFind;
    hide Split;
    LastComponent(b);
    match RFind(b, |b|)
    case None =>
      SplitOne(b);
      SplitSnoc(a, b);
    case Some(d) =>
      var init, last := b[..d], b[d + 1..];
      SplitConcat(a, init);
      SplitSnoc(init, last);
      SplitSnoc(a + "." + init, last);
      assert a + "." + (init + "." + last) == a + "." + init + "." + last;
  }

  // ----- Resolution ------------------------------------------------------------------

  /** The number of leading dots. */
  function Dots(name: string): (n: nat)
    ensures n <= |name| && (forall i :: 0 <= i < n ==> name[i] == '.') && (n < |name| ==> name[n] != '.')
  {
    if name != "" && name[0] == '.' then 1 + Dots(name[1..]) else 0
  }

  /** The scope a name asks for: the current one, or one to be looked up by its absolute name. */
  datatype Target = Stay | Lookup(name: string)

  /** `SetRelScope`. `current` is the name of the current scope. */
  method SetRelScope(name: string, current: string) returns (r: Target)
    ensures Dots(name) == 0 ==> r == Lookup(name)
    ensures name == "." ==> r == Stay
    ensures Dots(name) > 0 && name != "." ==>
              r.Lookup?
              && var up, n := Dots(name) - 1, |Split(current)|;
                 Split(r.name) == Split(current)[..if up < n then n - up else 1]
                                  + if Dots(name) < |name| then Split(name[Dots(name)..]) else []
  {
    hide Split;
    if name == "" || name[0] != '.' {
      return Lookup(name);
    }
    if name == "." {
      return Stay;
    }
    var firstNotDot := Dots(name);
    var upCount := firstNotDot - 1;
    var lastDot := Climb(current, upCount);
    var scope := current[..lastDot];
    if firstNotDot < |name| {
      SplitConcat(scope, name[firstNotDot..]);
      assert scope + name[firstNotDot - 1..] == scope + "." + name[firstNotDot..];
      scope := scope + name[firstNotDot - 1..];
    }
    return Lookup(scope);
  }

  /** The search for the last dot that is to remain. */
  method Climb(scope: string, upCount: nat) returns (lastDot: nat)
    ensures lastDot <= |scope|
    ensures var n := |Split(scope)|; Split(scope[..lastDot]) == Split(scope)[..if upCount < n then n - upCount else 1]
  {
    hide RFind;
    hide Split;
    lastDot := |scope|;
    ghost var n := |Split(scope)|;
    assert scope[..|scope|] == scope;
    for i := 0 to upCount
      invariant lastDot <= |scope| && Split(scope[..lastDot]) == Split(scope)[..if i < n then n - i else 1]
    {
      Parent(scope, lastDot);
      if lastDot == 0 {
        break;
      }
      var dot := RFind(scope, lastDot);
      if dot == None {
        break;
      }
      lastDot := dot.value;
    }
  }

  /** Erasing from the last dot on drops the last component; without a dot there is only one. */
  lemma Parent(s: string, end: nat)
    requires end <= |s|
    ensures var c := Split(s[..end]);
            match RFind(s, end)
            case None => |c| == 1
            case Some(d) => |c| > 1 && Split(s[..d]) == c[..|c| - 1]
    ensures end == 0 ==> RFind(s, end) == None
  {
    RFindPrefix(s, end, end);
    match RFind(s, end) {
      case None =>
      case Some(d) => assert s[..end][..d] == s[..d];
    }
  }

  lemma {:induction false} RFindPrefix(s: string, n: nat, end: nat)
    requires end <= n <= |s|
    ensures RFind(s[..n], end) == RFind(s, end)
  {
    if end > 0 {
      RFindPrefix(s, n, end - 1);
    }
  }
}
