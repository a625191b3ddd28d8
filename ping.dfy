/** The uptime line of the ping command: whole seconds of process uptime
    broken into 30-day months, days, hours, minutes and seconds. */
module Ping {
  import Decimal
  import Text

  const Minute: nat := 60
  const Hour: nat := 60 * 60
  const Day: nat := 24 * 60 * 60
  const Month: nat := 30 * 24 * 60 * 60

  datatype TimeUnit = TimeUnit(unit: string, value: nat)

  /** The five units in display order. Months and minutes share the suffix "m". */
  function TimeUnits(s: nat): (r: seq<TimeUnit>)
    ensures |r| == 5
    ensures r[0].unit == "m" && r[1].unit == "d" && r[2].unit == "h" && r[3].unit == "m" && r[4].unit == "s"
    ensures r[1].value < 30 && r[2].value < 24 && r[3].value < 60 && r[4].value < 60
    ensures r[0].value * Month + r[1].value * Day + r[2].value * Hour + r[3].value * Minute + r[4].value == s
  {
    var r := [
      TimeUnit("m", s / Month),
      TimeUnit("d", (s % Month) / Day),
      TimeUnit("h", (s % Day) / Hour),
      TimeUnit("m", (s % Hour) / Minute),
      TimeUnit("s", s % Minute)
    ];
    Reconstruct(s);
    r
  }

  /** Euclidean division has exactly one quotient and remainder. */
  lemma DivModUnique(s: nat, d: nat, q: nat, m: nat)
    requires d > 0 && m < d && s == q * d + m
    ensures q == s / d && m == s % d
  {
    var q0, m0 := s / d, s % d;
    assert (q - q0) * d == m0 - m;
    SmallMultiple(q - q0, d);
  }

  /** The only multiple of d strictly between -d and d is 0. */
  lemma SmallMultiple(x: int, d: nat)
    requires d > 0 && -(d as int) < x * d < d
    ensures x == 0
  {
    if x > 0 {
      MulAtLeast(x, d);
    } else if x < 0 {
      MulAtLeast(-x, d);
    }
  }

  lemma {:induction false} MulAtLeast(x: nat, d: nat)
    requires x >= 1
    ensures x * d >= d && (-(x as int)) * d <= -(d as int)
  {
    if x > 1 {
      MulAtLeast(x - 1, d);
      assert x * d == (x - 1) * d + d;
    }
  }

  lemma Reconstruct(s: nat)
    ensures (s / Month) * Month + ((s % Month) / Day) * Day + ((s % Day) / Hour) * Hour
            + ((s % Hour) / Minute) * Minute + s % Minute == s
  {
    NestedMod(s, Day, 30);
    NestedMod(s, Hour, 24);
    NestedMod(s, Minute, 60);
  }

  /** Taking the remainder by a multiple of a unit first does not change the
      remainder by the unit. */
  lemma NestedMod(s: nat, unit: nat, k: nat)
    requires unit > 0 && k > 0
    ensures (s % (unit * k)) % unit == s % unit
  {
    var big := unit * k;
    var q, m := s / big, s % big;
    var q2, m2 := m / unit, m % unit;
    MulSplit(q, unit, k, q2, m2);
    DivModUnique(s, unit, q * k + q2, m2);
  }

  lemma MulSplit(q: nat, unit: nat, k: nat, q2: nat, m2: nat)
    ensures q * (unit * k) + (q2 * unit + m2) == (q * k + q2) * unit + m2
  {
  }

  /** The decomposition is the only one within the unit bounds: any values
      with days < 30, hours < 24, minutes < 60 and seconds < 60 that add up
      to s are the ones `TimeUnits` displays. */
  lemma DecompositionUnique(s: nat, mo: nat, d: nat, h: nat, mi: nat, se: nat)
    requires d < 30 && h < 24 && mi < 60 && se < 60
    requires mo * Month + d * Day + h * Hour + mi * Minute + se == s
    ensures TimeUnits(s) == [TimeUnit("m", mo), TimeUnit("d", d), TimeUnit("h", h), TimeUnit("m", mi), TimeUnit("s", se)]
  {
    var r := TimeUnits(s);
    var rest := d * Day + h * Hour + mi * Minute + se;
    assert rest < Month;
    DivModUnique(s, Month, mo, rest);
    var rest' := r[1].value * Day + r[2].value * Hour + r[3].value * Minute + r[4].value;
    DivModUnique(s, Month, r[0].value, rest');
    DivModUnique(rest, Day, d, h * Hour + mi * Minute + se);
    DivModUnique(rest', Day, r[1].value, r[2].value * Hour + r[3].value * Minute + r[4].value);
    DivModUnique(h * Hour + mi * Minute + se, Hour, h, mi * Minute + se);
    DivModUnique(r[2].value * Hour + r[3].value * Minute + r[4].value, Hour, r[2].value, r[3].value * Minute + r[4].value);
    DivModUnique(mi * Minute + se, Minute, mi, se);
    DivModUnique(r[3].value * Minute + r[4].value, Minute, r[3].value, r[4].value);
  }

  /** The units whose value is non-zero, in their original order. */
  function Positive(units: seq<TimeUnit>): (r: seq<TimeUnit>)
    ensures |r| <= |units|
    ensures forall k :: 0 <= k < |r| ==> r[k].value > 0 && r[k] in units
    ensures forall k :: 0 <= k < |units| && units[k].value > 0 ==> units[k] in r
  {
    if units == [] then []
    else if units[0].value > 0 then [units[0]] + Positive(units[1..])
    else Positive(units[1..])
  }

  /** A single unit survives the filter exactly when it is non-zero. */
  function Keep(u: TimeUnit): seq<TimeUnit> {
    if u.value > 0 then [u] else []
  }

  /** The filter keeps the original order and multiplicity: it distributes
      over concatenation. */
  lemma {:induction false} PositiveAppend(a: seq<TimeUnit>, b: seq<TimeUnit>)
    ensures Positive(a + b) == Positive(a) + Positive(b)
  {
    if a == [] {
      assert a + b == b;
    } else {
      assert (a + b)[0] == a[0];
      assert (a + b)[1..] == a[1..] + b;
      PositiveAppend(a[1..], b);
    }
  }

  lemma PositiveCons(u: seq<TimeUnit>)
    requires u != []
    ensures Positive(u) == Keep(u[0]) + Positive(u[1..])
  {
  }

  /** Of five units, the survivors are each unit that is non-zero, in the
      original order. */
  lemma PositiveOfFive(u: seq<TimeUnit>)
    requires |u| == 5
    ensures Positive(u) == Keep(u[0]) + (Keep(u[1]) + (Keep(u[2]) + (Keep(u[3]) + Keep(u[4]))))
  {
    var t1 := u[1..];
    var t2 := t1[1..];
    var t3 := t2[1..];
    var t4 := t3[1..];
    PositiveCons(u);
    PositiveCons(t1);
    PositiveCons(t2);
    PositiveCons(t3);
    PositiveCons(t4);
    assert t4[1..] == [];
    assert Positive(t4) == Keep(t4[0]);
    assert t1[0] == u[1] && t2[0] == u[2] && t3[0] == u[3] && t4[0] == u[4];
  }

  /** Each unit as its decimal value followed by its suffix. */
  function Render(units: seq<TimeUnit>): (r: seq<string>)
    ensures |r| == |units|
  {
    if units == [] then [] else [Decimal.Show(units[0].value) + units[0].unit] + Render(units[1..])
  }

  lemma {:induction false} RenderedWords(units: seq<TimeUnit>)
    requires forall k :: 0 <= k < |units| ==> ' ' !in units[k].unit
    ensures forall k :: 0 <= k < |Render(units)| ==>
      Render(units)[k] == Decimal.Show(units[k].value) + units[k].unit &&
      Render(units)[k] != "" && ' ' !in Render(units)[k]
  {
    if units != [] {
      RenderedWords(units[1..]);
      var w := Decimal.Show(units[0].value);
      assert forall c :: c in w ==> Decimal.IsDigit(c);
    }
  }

  lemma {:induction false} PositiveEmpty(units: seq<TimeUnit>)
    ensures Positive(units) == [] <==> forall k :: 0 <= k < |units| ==> units[k].value == 0
  {
    if units != [] {
      PositiveEmpty(units[1..]);
      assert forall k :: 1 <= k < |units| ==> units[k] == units[1..][k - 1];
    }
  }

  /** Every displayed unit is zero exactly when the uptime is under a second. */
  lemma AllZeroAtZero(s: nat)
    ensures (forall k :: 0 <= k < 5 ==> TimeUnits(s)[k].value == 0) <==> s == 0
  {
    var u := TimeUnits(s);
    if s == 0 {
      DecompositionUnique(0, 0, 0, 0, 0, 0);
    } else if forall k :: 0 <= k < 5 ==> u[k].value == 0 {
      assert false;
    }
  }

  /** The words of the uptime line, and the two facts about joining them. */
  lemma UptimeWords(s: nat)
    ensures var words := Render(Positive(TimeUnits(s)));
      (Text.Join(words, ' ') == "" <==> s == 0) &&
      (s > 0 ==> Text.Split(Text.Join(words, ' '), ' ') == words)
  {
    var u := TimeUnits(s);
    var p := Positive(u);
    RenderedWords(p);
    Text.JoinEmpty(Render(p), ' ');
    Text.SplitJoin(Render(p), ' ');
    assert p == [] <==> s == 0 by {
      PositiveEmpty(u);
      AllZeroAtZero(s);
    }
  }

  /** `getFormattedUptime`, for the whole number of seconds of uptime. The
      line is empty exactly under one second of uptime; otherwise splitting it
      at single spaces gives one "{value}{unit}" word per non-zero unit, in
      the order month, day, hour, minute, second. */
  function FormatUptime(s: nat): (r: string)
    ensures r == "" <==> s == 0
    ensures s > 0 ==> var u := TimeUnits(s);
      Text.Split(r, ' ') == Render(Keep(u[0]) + (Keep(u[1]) + (Keep(u[2]) + (Keep(u[3]) + Keep(u[4])))))
  {
    UptimeWords(s);
    PositiveOfFive(TimeUnits(s));
    Text.Join(Render(Positive(TimeUnits(s))), ' ')
  }

  /** Thirty days and one minute both display as "1m": the display does not
      determine the uptime. */
  lemma MonthAndMinuteCollide()
    ensures FormatUptime(Month) == "1m"
    ensures FormatUptime(Minute) == "1m"
  {
    var oneM := [TimeUnit("m", 1)];
    assert Text.Join(Render(oneM), ' ') == "1m" by {
      assert Decimal.Show(1) == "1";
      assert "1" + "m" == "1m";
      assert oneM[1..] == [];
      assert Render(oneM) == ["1m"];
    }
    DecompositionUnique(Month, 1, 0, 0, 0, 0);
    assert Positive([TimeUnit("m", 1), TimeUnit("d", 0), TimeUnit("h", 0), TimeUnit("m", 0), TimeUnit("s", 0)])
      == oneM;
    DecompositionUnique(Minute, 0, 0, 0, 1, 0);
    assert Positive([TimeUnit("m", 0), TimeUnit("d", 0), TimeUnit("h", 0), TimeUnit("m", 1), TimeUnit("s", 0)])
      == oneM;
  }
}
