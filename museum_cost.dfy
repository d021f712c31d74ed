/**
  The value types of the museum zone optimizer and the zone cost function
  (`museum_solver/src/lib.rs`, `Attribute`, `MemberInfo`, `Zone`,
  `CalcResult`, `Zone::calc`, `Zone::calc_detail`).

  Integers are unbounded: the source's `i64` attributes and `u64` cost
  accumulators are taken not to overflow.
 */
module MuseumCost {

  /** The three stats used everywhere in the optimizer. */
  datatype Attribute = Attribute(time: int, value: int, popularity: int)
  {
    /** `self + rhs` (also `+=`). */
    function Add(rhs: Attribute): Attribute
    {
      Attribute(time + rhs.time, value + rhs.value, popularity + rhs.popularity)
    }

    /** `self - rhs` (also `-=`). */
    function Sub(rhs: Attribute): Attribute
    {
      Attribute(time - rhs.time, value - rhs.value, popularity - rhs.popularity)
    }

    /** `self.mul_by(k)`. */
    function MulBy(k: int): Attribute
    {
      Attribute(time * k, value * k, popularity * k)
    }
  }

  const Origin := Attribute(0, 0, 0)

  /** `a - b` undoes `+ b`, addition commutes and `mul_by` distributes over it. */
  lemma AttributeAlgebra(a: Attribute, b: Attribute, c: Attribute, k: int)
    ensures a.Add(b).Sub(b) == a && a.Sub(b).Add(b) == a
    ensures a.Add(b) == b.Add(a)
    ensures a.Add(b).Add(c) == a.Add(b.Add(c))
    ensures a.Sub(b).Sub(c) == a.Sub(b.Add(c))
    ensures a.Add(b).MulBy(k) == a.MulBy(k).Add(b.MulBy(k))
  {
    assert (a.time + b.time) * k == a.time * k + b.time * k;
    assert (a.value + b.value) * k == a.value * k + b.value * k;
    assert (a.popularity + b.popularity) * k == a.popularity * k + b.popularity * k;
  }

  /** `MemberInfo`: a named member and its stats. */
  datatype Member = Member(name: string, attr: Attribute)

  /** A zone: its base stats, the per-level bonus and the requirement. */
  datatype Zone = Zone(name: string, base: Attribute, subLevel: Attribute, require: Attribute)

  /** A cost: the shortfall (`require`) and the excess (`overflow`) summed over the three stats. */
  datatype CalcResult = CalcResult(require: nat, overflow: nat)
  {
    /** `self + rhs` (also `+=`), component-wise. */
    function Add(rhs: CalcResult): CalcResult
    {
      CalcResult(require + rhs.require, overflow + rhs.overflow)
    }
  }

  const NoCost := CalcResult(0, 0)

  /** The derived `Ord` of `CalcResult`: `require` first, then `overflow`. */
  predicate Less(a: CalcResult, b: CalcResult)
  {
    a.require < b.require || (a.require == b.require && a.overflow < b.overflow)
  }

  predicate LessEq(a: CalcResult, b: CalcResult)
  {
    Less(a, b) || a == b
  }

  /** The cost order is a total order and `<` is its strict part. */
  lemma CostOrderIsTotal(a: CalcResult, b: CalcResult, c: CalcResult)
    ensures LessEq(a, a)
    ensures LessEq(a, b) && LessEq(b, a) ==> a == b
    ensures LessEq(a, b) && LessEq(b, c) ==> LessEq(a, c)
    ensures LessEq(a, b) || LessEq(b, a)
    ensures Less(a, b) <==> LessEq(a, b) && a != b
  {
  }

  /** Adding a cost never makes a cost smaller; adding a non-zero one makes it larger. */
  lemma AddIsMonotone(a: CalcResult, b: CalcResult, c: CalcResult)
    ensures LessEq(a, a.Add(b))
    ensures b != NoCost ==> Less(a, a.Add(b))
    ensures LessEq(a, b) ==> LessEq(a.Add(c), b.Add(c))
  {
  }

  /** Sum of the members' stats, folded from the left starting at (0, 0, 0). */
  function AttributeSum(members: seq<Member>): Attribute
  {
    if members == [] then Origin
    else AttributeSum(members[..|members| - 1]).Add(members[|members| - 1].attr)
  }

  /** `req` after `req -= info.attr` for every member, in order. */
  function SubtractAll(req: Attribute, members: seq<Member>): Attribute
    decreases |members|
  {
    if members == [] then req else SubtractAll(req.Sub(members[0].attr), members[1..])
  }

  /** The residual requirement of `zone` staffed by `members`: positive where short, negative where exceeded. */
  function Residual(zone: Zone, members: seq<Member>): Attribute
  {
    SubtractAll(zone.require.Sub(zone.base).Sub(zone.subLevel.MulBy(10)), members)
  }

  /** Subtracting the members one by one is subtracting their sum. */
  lemma {:induction false} SubtractAllIsSubtractSum(req: Attribute, members: seq<Member>)
    ensures SubtractAll(req, members) == req.Sub(AttributeSum(members))
    decreases |members|
  {
    if members != [] {
      SubtractAllIsSubtractSum(req.Sub(members[0].attr), members[1..]);
      SumOfCons(members);
    }
  }

  /** The left fold splits off the first member too. */
  lemma {:induction false} SumOfCons(members: seq<Member>)
    requires members != []
    ensures AttributeSum(members) == members[0].attr.Add(AttributeSum(members[1..]))
    decreases |members|
  {
    if |members| > 1 {
      var init := members[..|members| - 1];
      SumOfCons(init);
      assert init[1..] == members[1..][..|members[1..]| - 1];
      assert init[0] == members[0];
    } else {
      assert members[..0] == [];
      assert members[1..] == [];
    }
  }

  /**
    `calc_detail(m)`: the stats the zone actually reaches with `members`,
    `Σ attr + base + 10 · sub_level`.
   */
  function Detail(zone: Zone, members: seq<Member>): (d: Attribute)
    ensures zone.require.Sub(d) == Residual(zone, members)
  {
    SubtractAllIsSubtractSum(zone.require.Sub(zone.base).Sub(zone.subLevel.MulBy(10)), members);
    AttributeSum(members).Add(zone.base).Add(zone.subLevel.MulBy(10))
  }

  /** The non-negative part of a residual component. */
  function Shortfall(x: int): nat
  {
    if x >= 0 then x else 0
  }

  /** The absolute value of a negative residual component (`unsigned_abs`). */
  function Excess(x: int): nat
  {
    if x >= 0 then 0 else -x
  }

  /**
    The cost of a residual: `require` adds up the components that are still
    missing, `overflow` the amounts by which the others are exceeded.
   */
  function CostOf(r: Attribute): (c: CalcResult)
    ensures c.require + c.overflow == Abs(r.time) + Abs(r.value) + Abs(r.popularity)
    ensures c.require == 0 <==> r.time <= 0 && r.value <= 0 && r.popularity <= 0
    ensures c.overflow == 0 <==> r.time >= 0 && r.value >= 0 && r.popularity >= 0
    ensures c == NoCost <==> r == Origin
  {
    CalcResult(Shortfall(r.time) + Shortfall(r.value) + Shortfall(r.popularity),
               Excess(r.time) + Excess(r.value) + Excess(r.popularity))
  }

  function Abs(x: int): nat
  {
    if x >= 0 then x else -x
  }

  /** What `zone.calc(members)` returns; the source asserts 1 to 3 members. */
  function ZoneCost(zone: Zone, members: seq<Member>): CalcResult
    requires 1 <= |members| <= 3
  {
    CostOf(Residual(zone, members))
  }

  /**
    `Zone::calc`: starts from `require - base - 10 · sub_level`, subtracts
    each member's stats, then splits the residual into shortfall and excess.
   */
  method Calc(zone: Zone, members: seq<Member>) returns (r: CalcResult)
    requires 1 <= |members| <= 3
    ensures r == ZoneCost(zone, members)
    ensures r == CostOf(zone.require.Sub(Detail(zone, members)))
  {
    var req := zone.require.Sub(zone.base).Sub(zone.subLevel.MulBy(10));
    ghost var start := req;
    var require: nat := 0;
    var overflow: nat := 0;
    for i := 0 to |members|
      invariant SubtractAll(req, members[i..]) == SubtractAll(start, members)
    {
      assert members[i..][1..] == members[i + 1..];
      req := req.Sub(members[i].attr);
    }
    assert members[|members|..] == [];
    if req.time >= 0 {
      require := require + req.time;
    } else {
      overflow := overflow + -req.time;
    }
    if req.value >= 0 {
      require := require + req.value;
    } else {
      overflow := overflow + -req.value;
    }
    if req.popularity >= 0 {
      require := require + req.popularity;
    } else {
      overflow := overflow + -req.popularity;
    }
    r := CalcResult(require, overflow);
  }

  /** The residual of a zone staffed by three members, written out. */
  lemma ResidualOfThree(zone: Zone, a: Member, b: Member, c: Member)
    ensures Residual(zone, [a, b, c])
         == zone.require.Sub(zone.base).Sub(zone.subLevel.MulBy(10)).Sub(a.attr).Sub(b.attr).Sub(c.attr)
  {
    var r := zone.require.Sub(zone.base).Sub(zone.subLevel.MulBy(10));
    assert [a, b, c][1..] == [b, c] && [b, c][1..] == [c] && [c][1..] == [];
    calc {
      SubtractAll(r, [a, b, c]);
      SubtractAll(r.Sub(a.attr), [b, c]);
      SubtractAll(r.Sub(a.attr).Sub(b.attr), [c]);
      SubtractAll(r.Sub(a.attr).Sub(b.attr).Sub(c.attr), []);
    }
  }

  /** A zone with no base stats and no level bonus, and three members of (10, 10, 10). */
  predicate TenEach(zone: Zone, a: Member, b: Member, c: Member)
  {
    zone.base == Origin && zone.subLevel == Origin
    && a.attr == Attribute(10, 10, 10) && b.attr == Attribute(10, 10, 10) && c.attr == Attribute(10, 10, 10)
  }

  /** Requirement (30, 30, 30) met exactly: no cost. */
  lemma ScenarioExact(zone: Zone, a: Member, b: Member, c: Member)
    requires TenEach(zone, a, b, c) && zone.require == Attribute(30, 30, 30)
    ensures ZoneCost(zone, [a, b, c]) == CalcResult(0, 0)
  {
    TenEachResidual(zone, a, b, c);
    assert CostOf(Origin) == CalcResult(0, 0);
  }

  /** Requirement (40, 40, 40): short by 10 on each stat. */
  lemma ScenarioShort(zone: Zone, a: Member, b: Member, c: Member)
    requires TenEach(zone, a, b, c) && zone.require == Attribute(40, 40, 40)
    ensures ZoneCost(zone, [a, b, c]) == CalcResult(30, 0)
  {
    TenEachResidual(zone, a, b, c);
    CostOfUniform(Residual(zone, [a, b, c]), 10);
  }

  /** Requirement (20, 20, 20): exceeded by 10 on each stat. */
  lemma ScenarioExceeded(zone: Zone, a: Member, b: Member, c: Member)
    requires TenEach(zone, a, b, c) && zone.require == Attribute(20, 20, 20)
    ensures ZoneCost(zone, [a, b, c]) == CalcResult(0, 30)
  {
    TenEachResidual(zone, a, b, c);
    CostOfUniform(Residual(zone, [a, b, c]), -10);
  }

  /** The cost of a residual that is the same on all three stats. */
  lemma CostOfUniform(r: Attribute, x: int)
    requires r == Attribute(x, x, x)
    ensures CostOf(r) == if x >= 0 then CalcResult(3 * x, 0) else CalcResult(0, -3 * x)
  {
  }

  /** With no base and no level bonus, three (10, 10, 10) members take 30 off every stat. */
  lemma TenEachResidual(zone: Zone, a: Member, b: Member, c: Member)
    requires TenEach(zone, a, b, c)
    ensures Residual(zone, [a, b, c]) == zone.require.Sub(Attribute(30, 30, 30))
  {
    ResidualOfThree(zone, a, b, c);
    assert zone.subLevel.MulBy(10) == Origin;
  }
}
