/**
 * Values in mixed-radix units, such as seconds, minutes and hours: conversion, the unit that suits a value, and the
 * split of a value over all units. Arithmetic is exact.
 */
module UnitFormatter {
  import opened Basics

  datatype Units = Units(min: int, max: int, rate: int -> nat)

  /** Every unit but the largest converts to the next at a positive rate. */
  ghost predicate IsSystem(s: Units) {
    s.min <= s.max && forall u :: s.min <= u < s.max ==> s.rate(u) > 0
  }

  predicate IsUnit(s: Units, u: int) {
    s.min <= u <= s.max
  }

  /** A product as a whole: its few laws are proved by themselves. */
  function Times(x: real, y: real): (r: real)
    ensures x > 0.0 && y > 0.0 ==> r > 0.0
  {
    x * y
  }

  /** A unit in terms of the smallest. */
  function Size(s: Units, u: int): (r: real)
    requires IsSystem(s) && IsUnit(s, u)
    ensures r > 0.0
    decreases u - s.min
  {
    if u == s.min then 1.0 else Times(Size(s, u - 1), s.rate(u - 1) as real)
  }

  /** What a value of a unit amounts to. */
  function Quantity(s: Units, value: real, u: int): real
    requires IsSystem(s) && IsUnit(s, u)
  {
    Times(value, Size(s, u))
  }

  // ---- Products ----

  lemma LargerTimes(x: real, y: real, size: real)
    requires size > 0.0
    ensures x <= y ==> Times(x, size) <= Times(y, size)
    ensures x < y ==> Times(x, size) < Times(y, size)
  {
    assert y * size - x * size == (y - x) * size;
  }

  lemma Cancels(x: real, y: real, size: real)
    requires size > 0.0 && Times(x, size) >= Times(y, size)
    ensures x >= y
  {
    if x < y {
      LargerTimes(x, y, size);
    }
  }

  lemma DividedBack(x: real, y: real)
    requires y > 0.0
    ensures Times(x / y, y) == x && Times(x, y) / y == x
  {
  }

  lemma Reassociated(x: real, y: real, z: real)
    ensures Times(Times(x, y), z) == Times(x, Times(z, y))
  {
  }

  lemma OneAndNone(x: real)
    ensures Times(1.0, x) == Times(x, 1.0) == x && Times(0.0, x) == 0.0
  {
  }

  lemma Commuted(x: real, y: real)
    ensures Times(x, y) == Times(y, x)
  {
  }

  lemma Distributed(x: real, y: real, size: real)
    ensures Times(x, size) + Times(y, size) == Times(x + y, size)
  {
  }

  lemma SizeOfNext(s: Units, u: int)
    requires IsSystem(s) && s.min <= u < s.max
    ensures Size(s, u + 1) == Times(Size(s, u), s.rate(u) as real) && s.rate(u) as real >= 1.0
  {
    hide Times;
  }

  lemma QuantityUp(s: Units, value: real, u: int)
    requires IsSystem(s) && s.min <= u < s.max
    ensures Quantity(s, value / s.rate(u) as real, u + 1) == Quantity(s, value, u)
  {
    SizeOfNext(s, u);
    hide Size, Times;
    var rate, size := s.rate(u) as real, Size(s, u);
    DividedBack(value, rate);
    Reassociated(value / rate, rate, size);
  }

  lemma QuantityDown(s: Units, value: real, u: int)
    requires IsSystem(s) && s.min < u <= s.max
    ensures Quantity(s, Times(value, s.rate(u - 1) as real), u - 1) == Quantity(s, value, u)
  {
    SizeOfNext(s, u - 1);
    hide Size, Times;
    Reassociated(value, s.rate(u - 1) as real, Size(s, u - 1));
  }

  // ---- formatAs ----

  method FormatAs(s: Units, value: real, currentUnit: int, targetUnit: int) returns (r: real)
    requires IsSystem(s) && IsUnit(s, currentUnit) && IsUnit(s, targetUnit)
    ensures Quantity(s, r, targetUnit) == Quantity(s, value, currentUnit)
  {
    hide Quantity, Times;
    r := value;
    var current := currentUnit;
    while current < targetUnit
      invariant IsUnit(s, current) && (currentUnit <= targetUnit ==> current <= targetUnit)
      invariant Quantity(s, r, current) == Quantity(s, value, currentUnit)
    {
      QuantityUp(s, r, current);
      r := r / s.rate(current) as real;
      current := current + 1;
    }
    while current > targetUnit
      invariant IsUnit(s, current) && current >= targetUnit
      invariant Quantity(s, r, current) == Quantity(s, value, currentUnit)
    {
      QuantityDown(s, r, current);
      current := current - 1;
      r := Times(r, s.rate(current) as real);
    }
  }

  // ---- format ----

  datatype Amount = Amount(value: real, u: int)

  /** One step of `format`: down below one, up above the rate less one, and otherwise done. */
  function Step(s: Units, a: Amount): Option<Amount>
    requires IsSystem(s) && IsUnit(s, a.u)
  {
    if a.u > s.min && a.value < 1.0 then Some(Amount(Times(a.value, s.rate(a.u - 1) as real), a.u - 1))
    else if a.u < s.max && a.value > s.rate(a.u) as real - 1.0 then Some(Amount(a.value / s.rate(a.u) as real, a.u + 1))
    else None
  }

  /** The result, if `n` steps are enough. */
  function FormatWithin(s: Units, a: Amount, n: nat): Option<Amount>
    requires IsSystem(s) && IsUnit(s, a.u)
    decreases n
  {
    var next := Step(s, a);
    if next.None? then Some(a)
    else if n == 0 then None
    else FormatWithin(s, next.value, n - 1)
  }

  /** The largest unit of which there is at least one, or the smallest unit. */
  function Home(s: Units, q: real, u: int): (r: int)
    requires IsSystem(s) && IsUnit(s, u)
    ensures s.min <= r <= u
    ensures r > s.min ==> q >= Size(s, r)
    ensures r < u ==> q < Size(s, r + 1)
    decreases u - s.min
  {
    if u == s.min || q >= Size(s, u) then u else Home(s, q, u - 1)
  }

  function InUnit(s: Units, q: real, u: int): real
    requires IsSystem(s) && IsUnit(s, u)
  {
    q / Size(s, u)
  }

  /** Some units have a gap: above the rate less one a value goes up, and below one it comes back. */
  predicate FallsInGap(s: Units, q: real)
    requires IsSystem(s)
  {
    var u := Home(s, q, s.max);
    u < s.max && InUnit(s, q, u) > s.rate(u) as real - 1.0
  }

  lemma ValueInUnit(s: Units, a: Amount)
    requires IsSystem(s) && IsUnit(s, a.u)
    ensures InUnit(s, Quantity(s, a.value, a.u), a.u) == a.value
  {
    hide Size, Times;
    DividedBack(a.value, Size(s, a.u));
  }

  lemma StepKeepsQuantity(s: Units, a: Amount)
    requires IsSystem(s) && IsUnit(s, a.u) && Step(s, a).Some?
    ensures var b := Step(s, a).value;
      IsUnit(s, b.u) && Quantity(s, b.value, b.u) == Quantity(s, a.value, a.u)
  {
    if a.u > s.min && a.value < 1.0 {
      QuantityDown(s, a.value, a.u);
    } else {
      QuantityUp(s, a.value, a.u);
    }
  }

  /** Larger units are larger. */
  lemma {:induction false} SizesGrow(s: Units, u: int, v: int)
    requires IsSystem(s) && IsUnit(s, u) && IsUnit(s, v) && u <= v
    ensures Size(s, u) <= Size(s, v)
    decreases v - u
  {
    if u < v {
      SizesGrow(s, u, v - 1);
      SizeOfNext(s, v - 1);
      hide Size, Times;
      var size, rate := Size(s, v - 1), s.rate(v - 1) as real;
      LargerTimes(1.0, rate, size);
      Commuted(rate, size);
      OneAndNone(size);
    }
  }

  lemma AtLeastOne(s: Units, q: real, u: int)
    requires IsSystem(s) && IsUnit(s, u)
    ensures InUnit(s, q, u) >= 1.0 <==> q >= Size(s, u)
  {
    hide Size, Times;
    var size := Size(s, u);
    DividedBack(q, size);
    OneAndNone(size);
    LargerTimes(1.0, q / size, size);
    LargerTimes(q / size, 1.0, size);
  }

  lemma AboveHome(s: Units, a: Amount, q: real)
    requires IsSystem(s) && IsUnit(s, a.u) && q == Quantity(s, a.value, a.u)
    requires a.u > Home(s, q, s.max)
    ensures a.value < 1.0
  {
    hide Size, Quantity, Times, InUnit;
    ValueInUnit(s, a);
    AtLeastOne(s, q, a.u);
    SizesGrow(s, Home(s, q, s.max) + 1, a.u);
  }

  lemma BelowHome(s: Units, a: Amount, q: real)
    requires IsSystem(s) && IsUnit(s, a.u) && q == Quantity(s, a.value, a.u)
    requires a.u < Home(s, q, s.max)
    ensures a.value >= s.rate(a.u) as real >= 1.0
  {
    hide Size, Times, Home, InUnit;
    SizesGrow(s, a.u + 1, Home(s, q, s.max));
    SizeOfNext(s, a.u);
    Commuted(s.rate(a.u) as real, Size(s, a.u));
    Cancels(a.value, s.rate(a.u) as real, Size(s, a.u));
  }

  /** Away from home a step goes one unit nearer; at home it stops unless the value falls in a gap. */
  lemma StepGoesHome(s: Units, a: Amount, q: real)
    requires IsSystem(s) && IsUnit(s, a.u) && q == Quantity(s, a.value, a.u)
    ensures var home := Home(s, q, s.max);
      && (a.u > home ==> Step(s, a).Some? && Step(s, a).value.u == a.u - 1)
      && (a.u < home ==> Step(s, a).Some? && Step(s, a).value.u == a.u + 1)
      && (a.u == home ==> (Step(s, a).None? <==> !FallsInGap(s, q)))
      && (a.u == home && FallsInGap(s, q) ==> Step(s, a).value.u == a.u + 1)
  {
    var home := Home(s, q, s.max);
    if a.u > home {
      AboveHome(s, a, q);
    } else if a.u < home {
      BelowHome(s, a, q);
    } else {
      ValueInUnit(s, a);
      AtLeastOne(s, q, a.u);
    }
  }

  /** Outside the gaps the way home is as long as the distance. */
  lemma {:induction false} FormatEnds(s: Units, a: Amount, q: real, n: nat)
    requires IsSystem(s) && IsUnit(s, a.u) && q == Quantity(s, a.value, a.u) && !FallsInGap(s, q)
    requires var home := Home(s, q, s.max); n >= if a.u > home then a.u - home else home - a.u
    ensures var home := Home(s, q, s.max); FormatWithin(s, a, n) == Some(Amount(InUnit(s, q, home), home))
    decreases n
  {
    StepGoesHome(s, a, q);
    hide Home, InUnit, FallsInGap;
    if a.u == Home(s, q, s.max) {
      ValueInUnit(s, a);
    } else {
      StepKeepsQuantity(s, a);
      FormatEnds(s, Step(s, a).value, q, n - 1);
    }
  }

  /** In a gap no number of steps is enough. */
  lemma {:induction false} FormatGoesOn(s: Units, a: Amount, q: real, n: nat)
    requires IsSystem(s) && IsUnit(s, a.u) && q == Quantity(s, a.value, a.u) && FallsInGap(s, q)
    ensures FormatWithin(s, a, n) == None
    decreases n
  {
    StepGoesHome(s, a, q);
    hide Home, InUnit, FallsInGap;
    StepKeepsQuantity(s, a);
    if n > 0 {
      FormatGoesOn(s, Step(s, a).value, q, n - 1);
    }
  }

  /** `format` ends exactly if the quantity falls in no gap, wherever it starts. */
  lemma FormatEndsIff(s: Units, a: Amount)
    requires IsSystem(s) && IsUnit(s, a.u)
    ensures (exists n :: FormatWithin(s, a, n).Some?) <==> !FallsInGap(s, Quantity(s, a.value, a.u))
  {
    var q := Quantity(s, a.value, a.u);
    if FallsInGap(s, q) {
      forall n
        ensures FormatWithin(s, a, n).None?
      {
        FormatGoesOn(s, a, q, n);
      }
    } else {
      var home := Home(s, q, s.max);
      FormatEnds(s, a, q, if a.u > home then a.u - home else home - a.u);
    }
  }

  const MINUTES := Units(0, 1, u => 60)

  /** Fifty-nine and a half seconds are too many for seconds and too few for minutes. */
  lemma GapIsNotEmpty()
    ensures IsSystem(MINUTES) && FallsInGap(MINUTES, 59.5)
    ensures forall n :: FormatWithin(MINUTES, Amount(59.5, 0), n).None?
  {
    assert Size(MINUTES, 0) == 1.0 && Size(MINUTES, 1) == 60.0;
    assert Home(MINUTES, 59.5, 1) == Home(MINUTES, 59.5, 0) == 0;
    FormatEndsIff(MINUTES, Amount(59.5, 0));
  }

  lemma StepDown(s: Units, value: real, u: int)
    requires IsSystem(s) && s.min < u <= s.max && value < 1.0
    ensures var next := Step(s, Amount(value, u));
      next.Some? && next.value.u == u - 1 && next.value.value == Times(value, s.rate(u - 1) as real)
  {
    hide Times;
  }

  lemma StepUp(s: Units, value: real, u: int)
    requires IsSystem(s) && s.min <= u < s.max && value > s.rate(u) as real - 1.0 && (u == s.min || value >= 1.0)
    ensures Step(s, Amount(value, u)) == Some(Amount(value / s.rate(u) as real, u + 1))
  {
  }

  /** `format`: the same quantity in the unit that suits it. */
  method Format(s: Units, value: real, u: int) returns (r: Amount)
    requires IsSystem(s) && IsUnit(s, u) && !FallsInGap(s, Quantity(s, value, u))
    ensures IsUnit(s, r.u) && Quantity(s, r.value, r.u) == Quantity(s, value, u)
    ensures r.u > s.min ==> r.value >= 1.0
    ensures r.u < s.max ==> r.value <= s.rate(r.u) as real - 1.0
    decreases var home := Home(s, Quantity(s, value, u), s.max); if u > home then u - home else home - u
  {
    ghost var a := Amount(value, u);
    StepGoesHome(s, a, Quantity(s, value, u));
    hide Home, Quantity, FallsInGap, InUnit, Size, Times;
    if u > s.min && value < 1.0 {
      StepDown(s, value, u);
      StepKeepsQuantity(s, a);
      hide Step;
      r := Format(s, Times(value, s.rate(u - 1) as real), u - 1);
    } else if u < s.max && value > s.rate(u) as real - 1.0 {
      StepUp(s, value, u);
      StepKeepsQuantity(s, a);
      hide Step;
      r := Format(s, value / s.rate(u) as real, u + 1);
    } else {
      r := Amount(value, u);
    }
  }

  // ---- formatAsUnitList ----

  function Total(s: Units, list: seq<Amount>): real
    requires IsSystem(s) && forall a :: a in list ==> IsUnit(s, a.u)
  {
    if list == [] then 0.0 else Quantity(s, list[0].value, list[0].u) + Total(s, list[1..])
  }

  predicate IsDescending(list: seq<Amount>) {
    forall i, j :: 0 <= i < j < |list| ==> list[i].u > list[j].u
  }

  /** A digit of a unit: positive, less than the rate below the largest unit, and whole above the smallest. */
  predicate IsDigit(s: Units, a: Amount) {
    && 0.0 < a.value
    && (a.u < s.max ==> a.value < s.rate(a.u) as real)
    && (a.u > s.min ==> a.value == a.value.Floor as real)
  }

  lemma CarryKeepsTotal(s: Units, n: nat, u: int)
    requires IsSystem(s) && s.min <= u < s.max
    ensures var rate := s.rate(u);
      Quantity(s, (n % rate) as real, u) + Quantity(s, (n / rate) as real, u + 1) == Quantity(s, n as real, u)
  {
    SizeOfNext(s, u);
    hide Size, Times;
    var rate, size := s.rate(u), Size(s, u);
    var q, r := n / rate, n % rate;
    Reassociated(q as real, rate as real, size);
    Distributed(r as real, Times(q as real, rate as real), size);
    Divided(n, rate);
  }

  lemma Divided(n: nat, rate: nat)
    requires rate > 0
    ensures (n % rate) as real + Times((n / rate) as real, rate as real) == n as real
  {
    var q, r := n / rate, n % rate;
    assert n == q * rate + r;
    assert (q * rate) as real == q as real * rate as real;
  }

  lemma SplitKeepsTotal(s: Units, x: real, y: real, u: int)
    requires IsSystem(s) && IsUnit(s, u)
    ensures Quantity(s, x, u) + Quantity(s, y, u) == Quantity(s, x + y, u)
  {
    hide Size, Times;
    Distributed(x, y, Size(s, u));
  }

  lemma OneMoreAmount(s: Units, a: Amount, list: seq<Amount>)
    requires IsSystem(s) && IsUnit(s, a.u) && forall b :: b in list ==> IsUnit(s, b.u) && b.u < a.u
    requires IsDescending(list)
    ensures forall b :: b in [a] + list ==> IsUnit(s, b.u)
    ensures Total(s, [a] + list) == Quantity(s, a.value, a.u) + Total(s, list)
    ensures IsDescending([a] + list)
  {
    assert ([a] + list)[1..] == list;
  }

  /** A split into units below one, each larger than the next. */
  ghost predicate IsSplit(s: Units, list: seq<Amount>, below: int) {
    (forall a :: a in list ==> IsUnit(s, a.u) && a.u < below) && IsDescending(list)
  }

  ghost predicate AllDigits(s: Units, list: seq<Amount>) {
    forall a :: a in list ==> IsDigit(s, a)
  }

  /** One digit more, of the unit below which the others are. */
  lemma OneMoreDigit(s: Units, n: nat, u: int, list: seq<Amount>)
    requires IsSystem(s) && s.min < u <= s.max && n > 0 && (u < s.max ==> n < s.rate(u))
    requires IsSplit(s, list, u) && AllDigits(s, list)
    ensures var a := Amount(n as real, u);
      && IsSplit(s, [a] + list, u + 1) && AllDigits(s, [a] + list)
      && Total(s, [a] + list) == Quantity(s, a.value, u) + Total(s, list)
  {
    hide Quantity, Total;
    OneMoreAmount(s, Amount(n as real, u), list);
  }

  /** The whole part over its unit and the larger ones, in front of the split of the rest. */
  method Carry(s: Units, whole: nat, u: int, rest: seq<Amount>) returns (list: seq<Amount>)
    requires IsSystem(s) && IsUnit(s, u) && u > s.min && IsSplit(s, rest, u) && AllDigits(s, rest)
    ensures IsSplit(s, list, s.max + 1) && AllDigits(s, list)
    ensures u < s.max && whole < s.rate(u) ==> IsSplit(s, list, u + 1)
    ensures Total(s, list) == Total(s, rest) + Quantity(s, whole as real, u)
  {
    hide Quantity, Total, Size, IsDescending, AllDigits;
    list := rest;
    var n, unit := whole, u;
    while n != 0 && unit != s.max
      invariant u <= unit <= s.max
      invariant IsSplit(s, list, unit) && AllDigits(s, list)
      invariant u < s.max && whole < s.rate(u) ==> (unit == u && n == whole) || (unit == u + 1 && n == 0)
      invariant Total(s, list) + Quantity(s, n as real, unit) == Total(s, rest) + Quantity(s, whole as real, u)
      decreases s.max - unit
    {
      var rate := s.rate(unit);
      var r := n % rate;
      CarryKeepsTotal(s, n, unit);
      NoQuantity(s, unit);
      SplitsBelow(s, list, unit);
      if r != 0 {
        OneMoreDigit(s, r, unit, list);
        list := [Amount(r as real, unit)] + list;
      }
      unit := unit + 1;
      n := n / rate;
    }
    NoQuantity(s, unit);
    SplitsBelow(s, list, unit);
    if n != 0 {
      OneMoreDigit(s, n, unit, list);
      list := [Amount(n as real, unit)] + list;
    }
  }

  lemma NoQuantity(s: Units, u: int)
    requires IsSystem(s) && IsUnit(s, u)
    ensures Quantity(s, 0.0, u) == 0.0
  {
    hide Size, Times;
    OneAndNone(Size(s, u));
  }

  lemma NothingIsSplit(s: Units)
    requires IsSystem(s)
    ensures Total(s, []) == 0.0 && AllDigits(s, [])
    ensures forall below :: IsSplit(s, [], below)
  {
  }

  lemma SmallestIsSplit(s: Units, a: Amount)
    requires IsSystem(s) && a.u == s.min
    ensures forall below :: below > a.u ==> IsSplit(s, [a], below)
    ensures IsDigit(s, a) ==> AllDigits(s, [a])
    ensures Total(s, [a]) == Quantity(s, a.value, a.u)
  {
  }

  lemma SplitsBelow(s: Units, list: seq<Amount>, below: int)
    requires IsSystem(s) && IsSplit(s, list, below)
    ensures forall more :: more >= below ==> IsSplit(s, list, more)
  {
  }

  lemma TimesRate(value: real, rate: real)
    requires rate > 0.0
    ensures value < 1.0 ==> Times(value, rate) < rate
    ensures value >= 0.0 ==> Times(value, rate) >= 0.0
  {
    hide Times;
    OneAndNone(rate);
    LargerTimes(value, 1.0, rate);
    LargerTimes(0.0, value, rate);
  }

  /** `formatAsUnitList`. */
  method FormatAsUnitList(s: Units, value: real, u: int) returns (list: seq<Amount>)
    requires IsSystem(s) && IsUnit(s, u)
    ensures IsSplit(s, list, s.max + 1)
    ensures u > s.min && value < 1.0 ==> IsSplit(s, list, u)
    ensures u == s.min || (u < s.max && value < s.rate(u) as real) ==> IsSplit(s, list, u + 1)
    ensures Total(s, list) == Quantity(s, value, u)
    ensures value >= 0.0 && (u > s.min || (u < s.max && value < s.rate(u) as real)) ==> AllDigits(s, list)
    decreases u - s.min, if value < 1.0 then 0 else 1
  {
    hide Quantity, Size, Times, Total, IsSplit, AllDigits;
    NothingIsSplit(s);
    NoQuantity(s, u);
    if value == 0.0 {
      return [];
    }
    if value < 1.0 || u == s.min {
      if u != s.min {
        QuantityDown(s, value, u);
        TimesRate(value, s.rate(u - 1) as real);
        list := FormatAsUnitList(s, Times(value, s.rate(u - 1) as real), u - 1);
        SplitsBelow(s, list, u);
      } else {
        list := [Amount(value, u)];
        SmallestIsSplit(s, Amount(value, u));
      }
      return;
    }
    var whole: nat := value.Floor;
    list := FormatAsUnitList(s, value - whole as real, u);
    SplitKeepsTotal(s, value - whole as real, whole as real, u);
    list := Carry(s, whole, u, list);
  }

  // ---- There is only one such list ----

  /** Digits below a unit amount to less than one of it. */
  lemma {:induction false} DigitsAmountToLess(s: Units, list: seq<Amount>, below: int)
    requires IsSystem(s) && IsSplit(s, list, below) && AllDigits(s, list) && s.min <= below <= s.max
    ensures 0.0 <= Total(s, list) < Size(s, below)
    decreases |list|
  {
    hide Size, Times;
    if list != [] {
      var a, rest := list[0], list[1..];
      assert a in list && IsDigit(s, a);
      RestIsSplit(s, list);
      DigitsAmountToLess(s, rest, a.u);
      DigitAmountsToLess(s, a, Total(s, rest));
      SizesGrow(s, a.u + 1, below);
    }
  }

  lemma RestIsSplit(s: Units, list: seq<Amount>)
    requires IsSystem(s) && list != [] && IsDescending(list)
    requires (forall a :: a in list ==> IsUnit(s, a.u)) && AllDigits(s, list)
    ensures IsSplit(s, list[1..], list[0].u) && AllDigits(s, list[1..])
    ensures list[0].u == s.min ==> list[1..] == []
  {
    var rest := list[1..];
    forall a | a in rest ensures IsUnit(s, a.u) && a.u < list[0].u && IsDigit(s, a) {
      var i :| 0 <= i < |rest| && rest[i] == a;
      assert a == list[i + 1] && a in list;
    }
    assert forall i :: 0 <= i < |rest| ==> rest[i] == list[i + 1];
    assert rest != [] ==> rest[0] in rest;
  }

  lemma WholesApart(x: real, y: real)
    requires x == x.Floor as real && y == y.Floor as real && x < y
    ensures x + 1.0 <= y
  {
    IntsApart(x.Floor, y.Floor);
  }

  lemma IntsApart(m: int, n: int)
    requires m as real < n as real
    ensures m as real + 1.0 <= n as real
  {
    assert (m + 1) as real == m as real + 1.0;
    assert m < n;
  }

  /** One digit, and less than one of its unit, is less than one of the next; and at least as much as that digit. */
  lemma DigitAmountsToLess(s: Units, a: Amount, rest: real)
    requires IsSystem(s) && IsUnit(s, a.u) && a.u < s.max && IsDigit(s, a)
    requires 0.0 <= rest < Size(s, a.u) && (a.u == s.min ==> rest == 0.0)
    ensures 0.0 <= Quantity(s, a.value, a.u) + rest < Size(s, a.u + 1)
  {
    SizeOfNext(s, a.u);
    var rate := s.rate(a.u) as real;
    if a.u > s.min {
      WholesApart(a.value, rate);
    }
    DigitTimes(a.value, rate, Size(s, a.u), rest);
  }

  lemma DigitTimes(x: real, rate: real, size: real, rest: real)
    requires 0.0 < x < rate && size > 0.0 && 0.0 <= rest < size && (rest > 0.0 ==> x + 1.0 <= rate)
    ensures 0.0 <= Times(x, size) + rest < Times(size, rate)
  {
    hide Times;
    OneAndNone(size);
    Commuted(rate, size);
    LargerTimes(0.0, x, size);
    LargerTimes(x, rate, size);
    Distributed(x, 1.0, size);
    LargerTimes(x + 1.0, rate, size);
  }

  lemma LeastDigit(s: Units, a: Amount)
    requires IsSystem(s) && IsUnit(s, a.u) && IsDigit(s, a) && a.u > s.min
    ensures Quantity(s, a.value, a.u) >= Size(s, a.u)
  {
    hide Size, Times;
    OneAndNone(Size(s, a.u));
    LargerTimes(1.0, a.value, Size(s, a.u));
  }

  /** What amounts to a digit and less than one of its unit is that digit and that rest. */
  lemma OneDigit(s: Units, a: Amount, x: real, b: Amount, y: real)
    requires IsSystem(s) && IsUnit(s, a.u) && a.u == b.u && IsDigit(s, a) && IsDigit(s, b)
    requires 0.0 <= x < Size(s, a.u) && 0.0 <= y < Size(s, a.u) && (a.u == s.min ==> x == y == 0.0)
    requires Quantity(s, a.value, a.u) + x == Quantity(s, b.value, a.u) + y
    ensures a == b && x == y
  {
    if a.u > s.min {
      if a.value < b.value {
        WholesApart(a.value, b.value);
      } else if b.value < a.value {
        WholesApart(b.value, a.value);
      }
    }
    hide IsDigit, Size;
    if a.value < b.value {
      LessAndRest(a.value, b.value, Size(s, a.u), x);
    } else if b.value < a.value {
      LessAndRest(b.value, a.value, Size(s, a.u), y);
    }
  }

  lemma LessAndRest(x: real, y: real, size: real, rest: real)
    requires x < y && size > 0.0 && 0.0 <= rest < size && (rest > 0.0 ==> x + 1.0 <= y)
    ensures Times(x, size) + rest < Times(y, size)
  {
    hide Times;
    OneAndNone(size);
    LargerTimes(x, y, size);
    Distributed(x, 1.0, size);
    LargerTimes(x + 1.0, y, size);
  }

  /** What the first entry leaves is less than one of its unit. */
  lemma FirstAndRest(s: Units, list: seq<Amount>)
    requires IsSystem(s) && list != [] && IsSplit(s, list, s.max + 1) && AllDigits(s, list)
    ensures IsSplit(s, list[1..], s.max + 1) && AllDigits(s, list[1..])
    ensures IsUnit(s, list[0].u) && IsDigit(s, list[0])
    ensures Total(s, list) == Quantity(s, list[0].value, list[0].u) + Total(s, list[1..])
    ensures 0.0 <= Total(s, list[1..]) < Size(s, list[0].u) && (list[0].u == s.min ==> Total(s, list[1..]) == 0.0)
  {
    hide Size, Times, Quantity;
    assert list[0] in list;
    RestIsSplit(s, list);
    DigitsAmountToLess(s, list[1..], list[0].u);
  }

  /** A list that begins with a larger unit amounts to more. */
  lemma LargerUnitIsMore(s: Units, list: seq<Amount>, less: seq<Amount>)
    requires IsSystem(s) && list != [] && IsSplit(s, list, s.max + 1) && AllDigits(s, list)
    requires IsSplit(s, less, s.max + 1) && AllDigits(s, less) && (less != [] ==> less[0].u < list[0].u)
    ensures Total(s, less) < Total(s, list)
  {
    hide Size, Times, Quantity;
    FirstAndRest(s, list);
    var u := list[0].u;
    forall a | a in less ensures a.u < u {
      var i :| 0 <= i < |less| && less[i] == a;
      assert i == 0 || less[0].u > less[i].u;
    }
    DigitsAmountToLess(s, less, u);
    if u > s.min {
      LeastDigit(s, list[0]);
    } else {
      DigitIsMore(s, list[0]);
      assert less == [];
    }
  }

  lemma DigitIsMore(s: Units, a: Amount)
    requires IsSystem(s) && IsUnit(s, a.u) && a.value > 0.0
    ensures Quantity(s, a.value, a.u) > 0.0
  {
  }

  /** Two lists of digits that amount to the same are the same. */
  lemma {:induction false} OneSplit(s: Units, a: seq<Amount>, b: seq<Amount>)
    requires IsSystem(s) && IsSplit(s, a, s.max + 1) && AllDigits(s, a) && IsSplit(s, b, s.max + 1) && AllDigits(s, b)
    requires Total(s, a) == Total(s, b)
    ensures a == b
    decreases |a|
  {
    hide Size, Times, Quantity;
    if a != [] && (b == [] || a[0].u > b[0].u) {
      LargerUnitIsMore(s, a, b);
    } else if b != [] && (a == [] || b[0].u > a[0].u) {
      LargerUnitIsMore(s, b, a);
    } else if a != [] {
      FirstAndRest(s, a);
      FirstAndRest(s, b);
      OneDigit(s, a[0], Total(s, a[1..]), b[0], Total(s, b[1..]));
      OneSplit(s, a[1..], b[1..]);
    }
  }
}
