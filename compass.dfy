/*
  The navigation compass (`navigation_compass_solver/src/navigation_compass.rs`):
  three rings, actions that turn some of them at once, and the search for
  a shortest bag of available actions that brings every ring to 0.

  The compass is modelled twice: as a value (`CompassValue`, with
  `ApplyActions` and `Solution` as the reference definitions) and as the
  class whose methods change rings in place (`NavigationCompass`). The
  methods are proved to compute the reference definitions, and the
  properties of the search (soundness, minimality, completeness) are
  proved about those.
*/
module Compass {
  import opened Wrappers
  import opened Itertools
  import opened CompassRing
  import opened CompassLinkage

  /** `enum Action { Rotate(Linkage) }`. */
  datatype Action = Rotate(linkage: Linkage)

  /** `.map(Action::Rotate)`: one action per linkage, in order. */
  function Actions(ls: seq<Linkage>): seq<Action>
  {
    seq(|ls|, i requires 0 <= i < |ls| => Rotate(ls[i]))
  }

  /** The compass's three rings, as a value. */
  datatype CompassValue = CompassValue(inner: RingValue, middle: RingValue, outer: RingValue)
  {
    function Ring(p: Part): RingValue
    {
      match p
      case Inner => inner
      case Middle => middle
      case Outer => outer
    }

    /** The compass with ring `p` rotated once and the others untouched. */
    function RotatePart(p: Part): (r: CompassValue)
      ensures forall q :: r.Ring(q) == if q == p then Ring(q).Rotated() else Ring(q)
    {
      match p
      case Inner => this.(inner := inner.Rotated())
      case Middle => this.(middle := middle.Rotated())
      case Outer => this.(outer := outer.Rotated())
    }

    /** `is_solved`: every ring shows 0. */
    predicate IsSolved()
    {
      inner.current == 0 && middle.current == 0 && outer.current == 0
    }
  }

  /** Two compasses with the same rings are the same compass. */
  lemma SameRings(a: CompassValue, b: CompassValue)
    requires forall p :: a.Ring(p) == b.Ring(p)
    ensures a == b
  {
    assert a.Ring(Inner) == b.Ring(Inner);
    assert a.Ring(Middle) == b.Ring(Middle);
    assert a.Ring(Outer) == b.Ring(Outer);
  }

  /** One turn of the loop in `do_actions`: the inner ring if linked, then the middle, then the outer. */
  function ApplyAction(c: CompassValue, a: Action): CompassValue
  {
    var l := a.linkage;
    var c1 := if l.inner then c.RotatePart(Inner) else c;
    var c2 := if l.middle then c1.RotatePart(Middle) else c1;
    if l.outer then c2.RotatePart(Outer) else c2
  }

  /** `do_actions`: the actions applied in order. */
  function ApplyActions(c: CompassValue, acts: seq<Action>): CompassValue
  {
    if acts == [] then c else ApplyAction(ApplyActions(c, acts[..|acts| - 1]), acts[|acts| - 1])
  }

  /** How many of the actions turn ring `p`. */
  function Count(acts: seq<Action>, p: Part): nat
  {
    if acts == [] then 0
    else Count(acts[..|acts| - 1], p) + if acts[|acts| - 1].linkage.Turns(p) then 1 else 0
  }

  /** An action turns exactly the rings its linkage names, once each. */
  lemma ApplyActionRing(c: CompassValue, a: Action, p: Part)
    ensures ApplyAction(c, a).Ring(p) == if a.linkage.Turns(p) then c.Ring(p).Rotated() else c.Ring(p)
  {
  }

  /** After `do_actions`, each ring has been rotated once per action that turns it. */
  lemma {:induction false} ApplyActionsCounts(c: CompassValue, acts: seq<Action>, p: Part)
    ensures ApplyActions(c, acts).Ring(p) == c.Ring(p).Iterate(Count(acts, p))
  {
    if acts != [] {
      ApplyActionsCounts(c, acts[..|acts| - 1], p);
      ApplyActionRing(ApplyActions(c, acts[..|acts| - 1]), acts[|acts| - 1], p);
    }
  }

  /** Counting splits over concatenation. */
  lemma {:induction false} CountAppend(a: seq<Action>, b: seq<Action>, p: Part)
    ensures Count(a + b, p) == Count(a, p) + Count(b, p)
  {
    if b != [] {
      CountAppend(a, b[..|b| - 1], p);
      assert (a + b)[..|a + b| - 1] == a + b[..|b| - 1];
      assert (a + b)[|a + b| - 1] == b[|b| - 1];
    } else {
      assert a + b == a;
    }
  }

  /** Taking one action out of the list removes its contribution. */
  lemma CountRemove(acts: seq<Action>, j: nat, p: Part)
    requires j < |acts|
    ensures Count(acts, p) == Count(acts[..j] + acts[j + 1..], p) + if acts[j].linkage.Turns(p) then 1 else 0
  {
    assert acts == acts[..j] + ([acts[j]] + acts[j + 1..]);
    CountAppend(acts[..j], [acts[j]] + acts[j + 1..], p);
    CountAppend([acts[j]], acts[j + 1..], p);
    CountAppend(acts[..j], acts[j + 1..], p);
    assert Count([acts[j]], p) == Count([], p) + if acts[j].linkage.Turns(p) then 1 else 0;
  }

  /** The counts depend only on the multiset of actions. */
  lemma {:induction false} CountPermutation(a: seq<Action>, b: seq<Action>, p: Part)
    requires multiset(a) == multiset(b)
    ensures Count(a, p) == Count(b, p)
    decreases |a|
  {
    if a != [] {
      var a' := a[..|a| - 1];
      var j := MatchLast(a, b);
      CountPermutation(a', b[..j] + b[j + 1..], p);
      CountRemove(b, j, p);
    } else {
      assert |b| == |multiset(b)| == 0;
    }
  }

  /** The last element of `a` sits somewhere in a permutation `b`; without the two, the rest are still permutations. */
  lemma MatchLast<T>(a: seq<T>, b: seq<T>) returns (j: nat)
    requires a != [] && multiset(a) == multiset(b)
    ensures j < |b| && b[j] == a[|a| - 1]
    ensures multiset(a[..|a| - 1]) == multiset(b[..j] + b[j + 1..])
  {
    var x := a[|a| - 1];
    assert a == a[..|a| - 1] + [x];
    assert x in multiset(b);
    j :| 0 <= j < |b| && b[j] == x;
    RemoveAt(b, j);
  }

  /** Dropping the element at `j` takes one copy of it out of the multiset. */
  lemma RemoveAt<T>(s: seq<T>, j: nat)
    requires j < |s|
    ensures multiset(s[..j] + s[j + 1..]) == multiset(s) - multiset{s[j]}
  {
    assert s == s[..j] + [s[j]] + s[j + 1..];
  }

  /** The result of `do_actions` depends only on the multiset of actions, not their order. */
  lemma OrderIndependent(c: CompassValue, a: seq<Action>, b: seq<Action>)
    requires multiset(a) == multiset(b)
    ensures ApplyActions(c, a) == ApplyActions(c, b)
  {
    forall p ensures ApplyActions(c, a).Ring(p) == ApplyActions(c, b).Ring(p) {
      ApplyActionsCounts(c, a, p);
      ApplyActionsCounts(c, b, p);
      CountPermutation(a, b, p);
    }
    SameRings(ApplyActions(c, a), ApplyActions(c, b));
  }

  /** Applying the actions of the linkages `ls` solves the compass. */
  predicate Solves(c: CompassValue, ls: seq<Linkage>)
  {
    ApplyActions(c, Actions(ls)).IsSolved()
  }

  /** Each linkage gives its own action, as often as it occurs. */
  lemma {:induction false} ActionsCount(ls: seq<Linkage>, l: Linkage)
    ensures multiset(Actions(ls))[Rotate(l)] == multiset(ls)[l]
  {
    if ls != [] {
      ActionsCount(ls[1..], l);
      assert ls == [ls[0]] + ls[1..];
      assert Actions(ls) == [Rotate(ls[0])] + Actions(ls[1..]);
    }
  }

  /** Whether a bag of linkages solves the compass does not depend on the order it is listed in. */
  lemma SolvesDependsOnMultiset(c: CompassValue, ls: seq<Linkage>, ms: seq<Linkage>)
    requires multiset(ls) == multiset(ms)
    ensures Solves(c, ls) == Solves(c, ms)
  {
    forall a ensures multiset(Actions(ls))[a] == multiset(Actions(ms))[a] {
      ActionsCount(ls, a.linkage);
      ActionsCount(ms, a.linkage);
    }
    assert multiset(Actions(ls)) == multiset(Actions(ms));
    OrderIndependent(c, Actions(ls), Actions(ms));
  }

  /** `try_solve` gives up after bags of this many actions. */
  const MaxActions := 100

  /** The test `try_solve` applies to a combination: do its actions, taken from `c`, solve the compass? */
  function SolvesFrom(c: CompassValue): seq<Linkage> -> bool
  {
    ls => Solves(c, ls)
  }

  /** `.find(...)`: the first combination, in order, that passes the test `ok`. */
  function FirstMatch(ok: seq<Linkage> -> bool, cs: seq<seq<Linkage>>): Option<seq<Linkage>>
  {
    if cs == [] then None
    else if ok(cs[0]) then Some(cs[0])
    else FirstMatch(ok, cs[1..])
  }

  /** What `find` returns is one of the combinations and passes the test, and `None` means none does. */
  lemma {:induction false} FirstMatchIsSound(ok: seq<Linkage> -> bool, cs: seq<seq<Linkage>>)
    ensures FirstMatch(ok, cs).Some? ==> FirstMatch(ok, cs).value in cs && ok(FirstMatch(ok, cs).value)
    ensures FirstMatch(ok, cs).None? <==> forall x :: x in cs ==> !ok(x)
  {
    if cs != [] && !ok(cs[0]) {
      FirstMatchIsSound(ok, cs[1..]);
      assert cs == [cs[0]] + cs[1..];
    }
  }

  /** The loop of `try_solve` from bag size `k` on: the combination it settles on, if any. */
  function SearchFrom(ok: seq<Linkage> -> bool, available: seq<Linkage>, k: nat): Option<seq<Linkage>>
    decreases MaxActions + 1 - k
  {
    if k > MaxActions then None
    else match FirstMatch(ok, CombinationsWithReplacement(available, k))
      case Some(ls) => Some(ls)
      case None => SearchFrom(ok, available, k + 1)
  }

  /** What `try_solve` returns: the actions of the combination the search settles on. */
  function Solution(c: CompassValue, available: seq<Linkage>): Option<seq<Action>>
  {
    match SearchFrom(SolvesFrom(c), available, 1)
    case Some(ls) => Some(Actions(ls))
    case None => None
  }

  /** A turn of the outer loop that finds a passing combination of size `k`: it is the result. */
  lemma SearchHit(ok: seq<Linkage> -> bool, available: seq<Linkage>, k: nat)
    requires k <= MaxActions
    requires FirstMatch(ok, CombinationsWithReplacement(available, k)).Some?
    ensures var ls := FirstMatch(ok, CombinationsWithReplacement(available, k)).value;
      |ls| == k && ls in CombinationsWithReplacement(available, k) && ok(ls) &&
      SearchFrom(ok, available, k) == Some(ls)
  {
    FirstMatchIsSound(ok, CombinationsWithReplacement(available, k));
  }

  /** A turn of the outer loop that finds nothing goes on with `k + 1`. */
  lemma SearchMiss(ok: seq<Linkage> -> bool, available: seq<Linkage>, k: nat)
    requires k <= MaxActions
    requires FirstMatch(ok, CombinationsWithReplacement(available, k)).None?
    ensures SearchFrom(ok, available, k) == SearchFrom(ok, available, k + 1)
  {
  }

  /** A turn of the outer loop that finds `ls` at size `k` ends the search with `ls`. */
  lemma SearchSettles(ok: seq<Linkage> -> bool, available: seq<Linkage>, k: nat, ls: seq<Linkage>)
    requires k <= MaxActions
    requires FirstMatch(ok, CombinationsWithReplacement(available, k)) == Some(ls)
    ensures SearchFrom(ok, available, k) == Some(ls)
  {
  }

  /** One turn of the inner loop: the combination at `j` is found when it passes, and skipped otherwise. */
  lemma FirstMatchStep(ok: seq<Linkage> -> bool, cs: seq<seq<Linkage>>, j: nat)
    requires j < |cs|
    ensures ok(cs[j]) ==> FirstMatch(ok, cs[j..]) == Some(cs[j])
    ensures !ok(cs[j]) ==> FirstMatch(ok, cs[j..]) == FirstMatch(ok, cs[j + 1..])
  {
    assert cs[j..][1..] == cs[j + 1..];
  }

  /** From size `k` on, a result is a passing combination of some size between `k` and 100. */
  lemma {:induction false} SearchFound(ok: seq<Linkage> -> bool, available: seq<Linkage>, k: nat)
    requires SearchFrom(ok, available, k).Some?
    ensures var ls := SearchFrom(ok, available, k).value;
      k <= |ls| <= MaxActions && ls in CombinationsWithReplacement(available, |ls|) && ok(ls)
    decreases MaxActions + 1 - k
  {
    assert k <= MaxActions;
    if FirstMatch(ok, CombinationsWithReplacement(available, k)).None? {
      SearchMiss(ok, available, k);
      SearchFound(ok, available, k + 1);
    } else {
      SearchHit(ok, available, k);
    }
  }

  /** Before the size of the result, the outer loop finds nothing and goes on. */
  lemma SearchGoesOn(ok: seq<Linkage> -> bool, available: seq<Linkage>, k: nat)
    requires k <= MaxActions
    requires SearchFrom(ok, available, k).None? || k < |SearchFrom(ok, available, k).value|
    ensures FirstMatch(ok, CombinationsWithReplacement(available, k)).None?
  {
    if FirstMatch(ok, CombinationsWithReplacement(available, k)).Some? {
      SearchHit(ok, available, k);
      assert false;
    }
  }

  /** From size `k` on, the outer loop finds nothing at any size `j` below the result's. */
  lemma {:induction false} SearchIsFirstAt(ok: seq<Linkage> -> bool, available: seq<Linkage>, k: nat, j: nat)
    requires SearchFrom(ok, available, k).Some?
    requires k <= j < |SearchFrom(ok, available, k).value|
    ensures FirstMatch(ok, CombinationsWithReplacement(available, j)).None?
    decreases j - k
  {
    assert k <= MaxActions;
    SearchGoesOn(ok, available, k);
    if j > k {
      SearchMiss(ok, available, k);
      SearchIsFirstAt(ok, available, k + 1, j);
    }
  }

  /** From size `k` on, no combination of a size below the result's passes. */
  lemma SearchIsFirst(ok: seq<Linkage> -> bool, available: seq<Linkage>, k: nat, j: nat, ls: seq<Linkage>)
    requires SearchFrom(ok, available, k).Some?
    requires k <= j < |SearchFrom(ok, available, k).value|
    requires ls in CombinationsWithReplacement(available, j)
    ensures !ok(ls)
  {
    SearchIsFirstAt(ok, available, k, j);
    FirstMatchIsSound(ok, CombinationsWithReplacement(available, j));
  }

  /** From size `k` on, when nothing is found, the outer loop finds nothing at any size `j` from `k` to 100. */
  lemma {:induction false} SearchNoneAt(ok: seq<Linkage> -> bool, available: seq<Linkage>, k: nat, j: nat)
    requires SearchFrom(ok, available, k).None?
    requires k <= j <= MaxActions
    ensures FirstMatch(ok, CombinationsWithReplacement(available, j)).None?
    decreases j - k
  {
    SearchGoesOn(ok, available, k);
    if j > k {
      SearchMiss(ok, available, k);
      SearchNoneAt(ok, available, k + 1, j);
    }
  }

  /** From size `k` on, when nothing is found, no combination of a size from `k` to 100 passes. */
  lemma SearchNone(ok: seq<Linkage> -> bool, available: seq<Linkage>, k: nat, j: nat, ls: seq<Linkage>)
    requires SearchFrom(ok, available, k).None?
    requires k <= j <= MaxActions
    requires ls in CombinationsWithReplacement(available, j)
    ensures !ok(ls)
  {
    SearchNoneAt(ok, available, k, j);
    FirstMatchIsSound(ok, CombinationsWithReplacement(available, j));
  }

  /** From size `k` on, nothing is found exactly when no combination of a size from `k` to 100 passes. */
  lemma SearchIsComplete(ok: seq<Linkage> -> bool, available: seq<Linkage>, k: nat)
    ensures SearchFrom(ok, available, k).None?
        <==> forall j, ls :: k <= j <= MaxActions && ls in CombinationsWithReplacement(available, j) ==> !ok(ls)
  {
    if SearchFrom(ok, available, k).Some? {
      SearchFound(ok, available, k);
      var ls := SearchFrom(ok, available, k).value;
      assert ls in CombinationsWithReplacement(available, |ls|) && ok(ls);
    } else {
      forall j, ls | k <= j <= MaxActions && ls in CombinationsWithReplacement(available, j) ensures !ok(ls) {
        SearchNone(ok, available, k, j, ls);
      }
    }
  }

  /** Every sequence of available linkages has a combination listing the same bag. */
  lemma HasCombination(available: seq<Linkage>, ls: seq<Linkage>) returns (cs: seq<Linkage>)
    requires forall i :: 0 <= i < |ls| ==> ls[i] in available
    ensures cs in CombinationsWithReplacement(available, |ls|) && multiset(cs) == multiset(ls)
  {
    DrawnFromElements(multiset(ls), available);
    CombinationsWithReplacementComplete(available, |ls|, multiset(ls));
    cs :| cs in CombinationsWithReplacement(available, |ls|) && multiset(cs) == multiset(ls);
  }

  /** A result of `try_solve` is the actions of a bag of 1 to 100 available linkages that solves the compass. */
  lemma SolutionWitness(c: CompassValue, available: seq<Linkage>) returns (ls: seq<Linkage>)
    requires Solution(c, available).Some?
    ensures 1 <= |ls| <= MaxActions && ls in CombinationsWithReplacement(available, |ls|)
    ensures Solution(c, available).value == Actions(ls) && Solves(c, ls)
  {
    SearchFound(SolvesFrom(c), available, 1);
    ls := SearchFrom(SolvesFrom(c), available, 1).value;
    assert SolvesFrom(c)(ls);
  }

  /**
    A result of `try_solve` has between 1 and 100 actions, each turning one
    of the available linkages, and applying it solves the compass.
   */
  lemma SolutionIsSound(c: CompassValue, available: seq<Linkage>)
    requires Solution(c, available).Some?
    ensures var r := Solution(c, available).value;
      1 <= |r| <= MaxActions && (forall i :: 0 <= i < |r| ==> r[i].linkage in available) &&
      ApplyActions(c, r).IsSolved()
  {
    var ls := SolutionWitness(c, available);
    var r := Solution(c, available).value;
    assert forall i :: 0 <= i < |r| ==> r[i].linkage == ls[i];
  }

  /**
    A result of `try_solve` is as short as possible: no sequence of
    available linkages that is shorter, in any order, solves the compass.
   */
  lemma SolutionIsMinimal(c: CompassValue, available: seq<Linkage>, ls: seq<Linkage>)
    requires Solution(c, available).Some?
    requires 1 <= |ls| < |Solution(c, available).value|
    requires forall i :: 0 <= i < |ls| ==> ls[i] in available
    ensures !Solves(c, ls)
  {
    var cs := HasCombination(available, ls);
    SearchIsFirst(SolvesFrom(c), available, 1, |ls|, cs);
    SolvesDependsOnMultiset(c, cs, ls);
  }

  /** When `try_solve` returns `None`, no sequence of 1 to 100 available linkages, in any order, solves the compass. */
  lemma NoSolutionRulesOut(c: CompassValue, available: seq<Linkage>, ls: seq<Linkage>)
    requires Solution(c, available).None?
    requires 1 <= |ls| <= MaxActions
    requires forall i :: 0 <= i < |ls| ==> ls[i] in available
    ensures !Solves(c, ls)
  {
    var cs := HasCombination(available, ls);
    SearchNone(SolvesFrom(c), available, 1, |ls|, cs);
    SolvesDependsOnMultiset(c, cs, ls);
  }

  /** `try_solve` returns `None` exactly when no sequence of 1 to 100 available linkages solves the compass. */
  lemma SolutionIsComplete(c: CompassValue, available: seq<Linkage>)
    ensures Solution(c, available).None? <==>
      forall ls :: 1 <= |ls| <= MaxActions && (forall i :: 0 <= i < |ls| ==> ls[i] in available) ==> !Solves(c, ls)
  {
    if Solution(c, available).None? {
      forall ls | 1 <= |ls| <= MaxActions && (forall i :: 0 <= i < |ls| ==> ls[i] in available) ensures !Solves(c, ls) {
        NoSolutionRulesOut(c, available, ls);
      }
    } else {
      var ls := SolutionWitness(c, available);
      assert forall i :: 0 <= i < |ls| ==> ls[i] in available;
    }
  }

  /** With no linkages to choose from there is nothing to find. */
  lemma NoLinkagesNoSolution(c: CompassValue)
    ensures Solution(c, []) == None
  {
    NoLinkagesFrom(SolvesFrom(c), 1);
  }

  /** With no linkages, every bag size from `k >= 1` on is empty, so the search from `k` finds nothing. */
  lemma {:induction false} NoLinkagesFrom(ok: seq<Linkage> -> bool, k: nat)
    requires k >= 1
    ensures SearchFrom(ok, [], k) == None
    decreases MaxActions + 1 - k
  {
    if k <= MaxActions {
      CombinationsWithReplacementOfEmpty<Linkage>(k);
      NoLinkagesFrom(ok, k + 1);
    }
  }

  /** `struct NavigationCompass`: three rings, each turned in place. */
  class NavigationCompass {
    var inner: Ring
    var middle: Ring
    var outer: Ring

    /** The compass owns three separate rings. */
    ghost predicate Valid()
      reads this
    {
      inner != middle && inner != outer && middle != outer
    }

    /** The rings' fields, as a value. */
    function Value(): CompassValue
      reads this, inner, middle, outer
    {
      CompassValue(inner.Value(), middle.Value(), outer.Value())
    }

    /** `is_solved`. */
    predicate IsSolved()
      reads this, inner, middle, outer
    {
      Value().IsSolved()
    }

    /** `NavigationCompass::new`: it takes ownership of three rings. */
    constructor (inner: Ring, middle: Ring, outer: Ring)
      requires inner != middle && inner != outer && middle != outer
      ensures Valid()
      ensures this.inner == inner && this.middle == middle && this.outer == outer
    {
      this.inner := inner;
      this.middle := middle;
      this.outer := outer;
    }

    /** `#[derive(Clone)]`: a compass with three new rings holding the same values. */
    method Clone() returns (r: NavigationCompass)
      ensures fresh(r) && fresh(r.inner) && fresh(r.middle) && fresh(r.outer)
      ensures r.Valid() && r.Value() == Value()
    {
      var i := inner.Clone();
      var m := middle.Clone();
      var o := outer.Clone();
      r := new NavigationCompass(i, m, o);
    }

    /** `rotate_inner`. */
    method RotateInner()
      requires Valid()
      modifies inner
      ensures Value() == old(Value()).RotatePart(Inner)
    {
      inner.Rotate();
    }

    /** `rotate_middle`. */
    method RotateMiddle()
      requires Valid()
      modifies middle
      ensures Value() == old(Value()).RotatePart(Middle)
    {
      middle.Rotate();
    }

    /** `rotate_outer`. */
    method RotateOuter()
      requires Valid()
      modifies outer
      ensures Value() == old(Value()).RotatePart(Outer)
    {
      outer.Rotate();
    }

    /** The body of the loop in `do_actions`: turn each ring the action's linkage names. */
    method Apply(action: Action)
      requires Valid()
      modifies inner, middle, outer
      ensures Value() == ApplyAction(old(Value()), action)
    {
      var Rotate(l) := action;
      if l.inner {
        RotateInner();
      }
      if l.middle {
        RotateMiddle();
      }
      if l.outer {
        RotateOuter();
      }
    }

    /** `do_actions`: apply the actions to a clone; this compass is left as it is. */
    method DoActions(actions: seq<Action>) returns (result: NavigationCompass)
      requires Valid()
      ensures fresh(result) && fresh(result.inner) && fresh(result.middle) && fresh(result.outer)
      ensures result.Valid() && result.Value() == ApplyActions(Value(), actions)
    {
      result := Clone();
      for i := 0 to |actions|
        invariant fresh(result) && fresh(result.inner) && fresh(result.middle) && fresh(result.outer)
        invariant result.Valid()
        invariant result.Value() == ApplyActions(Value(), actions[..i])
      {
        result.Apply(actions[i]);
        assert actions[..i + 1][..i] == actions[..i];
      }
      assert actions[..|actions|] == actions;
    }

    /**
      `.find(...)` in `try_solve`: the first combination, in order, whose
      actions, applied to a clone, solve the compass.
     */
    method FindSolving(cs: seq<seq<Linkage>>) returns (found: Option<seq<Linkage>>)
      requires Valid()
      ensures found == FirstMatch(SolvesFrom(Value()), cs)
    {
      ghost var ok := SolvesFrom(Value());
      var j := 0;
      while j < |cs|
        invariant 0 <= j <= |cs|
        invariant FirstMatch(ok, cs) == FirstMatch(ok, cs[j..])
      {
        var after := DoActions(Actions(cs[j]));
        FirstMatchStep(ok, cs, j);
        if after.IsSolved() {
          assert ok(cs[j]);
          return Some(cs[j]);
        }
        j := j + 1;
      }
      assert cs[j..] == [];
      return None;
    }

    /**
      `try_solve`: for each size from 1 to 100, the first combination with
      replacement of the available linkages whose actions solve the compass.
     */
    method TrySolve(available: seq<Linkage>) returns (r: Option<seq<Action>>)
      requires Valid()
      ensures r == Solution(Value(), available)
    {
      ghost var ok := SolvesFrom(Value());
      var k := 1;
      while k <= MaxActions
        invariant 1 <= k <= MaxActions + 1
        invariant SearchFrom(ok, available, 1) == SearchFrom(ok, available, k)
        decreases MaxActions + 1 - k
      {
        var found := FindSolving(CombinationsWithReplacement(available, k));
        if found.Some? {
          SearchSettles(ok, available, k, found.value);
          return Some(Actions(found.value));
        }
        SearchMiss(ok, available, k);
        k := k + 1;
      }
      return None;
    }
  }
}
