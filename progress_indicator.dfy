/**
 * The validation utilities' loop progress indicator: the counters it keeps
 * and the percentages it reports. Printing itself is not modelled; each call
 * returns the percentage it would print, if any.
 */
module Progress {
  import opened Wrappers

  /** C++ `unsigned long` (64 bits). */
  newtype U64 = x: int | 0 <= x < 0x1_0000_0000_0000_0000

  /**
   * The `double` values that occur: non-negative integers, and +inf, which is
   * what 100.0 / 0 evaluates to.
   */
  datatype Extended = Finite(value: nat) | Infinity

  function Times(k: nat, e: Extended): Extended
  {
    match e
    case Finite(v) => Finite(k * v)
    case Infinity => if k == 0 then Finite(0) else Infinity
  }

  /**
   * `percent_increment_ = ceil(100.0 / n)`. For n >= 1 the quotient is a
   * positive double at least 1/n away from any integer it is not equal to,
   * and rounding moves it by less than that, so the ceiling is exact.
   */
  function PercentIncrement(n: nat): (r: Extended)
    ensures r.Infinity? <==> n == 0
    ensures r.Finite? ==> r.value >= 1 && (r.value - 1) * n < 100 <= r.value * n
  {
    if n == 0 then Infinity
    else
      var q := (100 + n - 1) / n;
      CeilingBounds(100, n, q);
      Finite(q)
  }

  lemma CeilingBounds(a: nat, n: nat, q: nat)
    requires n >= 1 && a >= 1 && q == (a + n - 1) / n
    ensures q >= 1 && (q - 1) * n < a <= q * n
  {
    var r := (a + n - 1) % n;
    assert a + n - 1 == q * n + r && 0 <= r < n;
    assert (q - 1) * n == q * n - n;
  }

  /** The increment is 1% exactly when there are at least 100 entries. */
  lemma PercentIncrementOne(n: nat)
    ensures PercentIncrement(n) == Finite(1) <==> n >= 100
  {
    if n >= 1 {
      var v := PercentIncrement(n).value;
      if n >= 100 {
        MulMonotone(v - 1, 100, n);
      } else {
        assert 100 <= v * n;
      }
    }
  }

  lemma MulMonotone(a: nat, b: nat, c: nat)
    requires b <= c
    ensures a * b <= a * c
  {
  }

  /**
   * `events_per_print_`: n / 100 rounded down when the increment is 1%,
   * otherwise 1 (one print per call).
   */
  function EventsPerPrint(n: nat): (r: nat)
    ensures r >= 1
    ensures n >= 100 ==> r * 100 <= n < (r + 1) * 100
    ensures n < 100 ==> r == 1
  {
    PercentIncrementOne(n);
    if PercentIncrement(n) == Finite(1) then n / 100 else 1
  }

  /** The fields of a `ProgressIndicator`, as a value. */
  datatype Counters = Counters(
    entries: nat,          // num_entries_
    sincePrint: nat,       // num_events_per_print_
    printed: nat,          // num_printed_msgs_
    calls: nat,            // num_operator_calls_
    eventsPerPrint: nat,   // events_per_print_
    increment: Extended)   // percent_increment_

  /** The state after construction with n entries. */
  function Init(n: nat): Counters
  {
    Counters(n, 0, 0, 0, EventsPerPrint(n), PercentIncrement(n))
  }

  /** One `operator()` call: the new counters and the percentage printed, if any. */
  function Step(c: Counters): (Counters, Option<Extended>)
  {
    if c.calls == c.entries then (c, None)
    else
      var c1 := c.(calls := c.calls + 1, sincePrint := c.sincePrint + 1);
      if c1.sincePrint != c1.eventsPerPrint then (c1, None)
      else
        var c2 := c1.(printed := c1.printed + 1, sincePrint := 0);
        (c2, Some(Times(c2.printed, c2.increment)))
  }

  /** What holds of the counters between calls. */
  predicate Valid(c: Counters)
  {
    && c.calls <= c.entries
    && c.eventsPerPrint == EventsPerPrint(c.entries)
    && c.increment == PercentIncrement(c.entries)
    && c.sincePrint < c.eventsPerPrint
    && c.printed * c.eventsPerPrint + c.sincePrint == c.calls
  }

  lemma InitValid(n: nat)
    ensures Valid(Init(n))
    ensures Init(n).calls == 0 && Init(n).printed == 0
  {
  }

  /**
   * One call keeps the counters valid; it changes nothing once every entry
   * has been counted, and otherwise counts one more entry and prints exactly
   * when the per-print counter reaches the threshold, which resets it.
   */
  lemma StepValid(c: Counters)
    requires Valid(c)
    ensures Valid(Step(c).0)
    ensures c.calls == c.entries ==> Step(c) == (c, None)
    ensures c.calls < c.entries ==> Step(c).0.calls == c.calls + 1
    ensures Step(c).1.Some? <==> c.calls < c.entries && c.sincePrint + 1 == c.eventsPerPrint
    ensures Step(c).1.Some? ==>
      && Step(c).0.printed == c.printed + 1
      && Step(c).0.sincePrint == 0
      && Step(c).1.value == Times(Step(c).0.printed, c.increment)
    ensures Step(c).1.None? ==> Step(c).0.printed == c.printed
    ensures Step(c).0.entries == c.entries
  {
    if c.calls < c.entries && c.sincePrint + 1 == c.eventsPerPrint {
      var d := Step(c).0;
      assert d.printed * d.eventsPerPrint == c.printed * c.eventsPerPrint + c.eventsPerPrint;
    }
  }

  /** The counters after k calls. */
  function Run(c: Counters, k: nat): Counters
    decreases k
  {
    if k == 0 then c else Run(Step(c).0, k - 1)
  }

  lemma {:induction false} RunValid(c: Counters, k: nat)
    requires Valid(c)
    decreases k
    ensures Valid(Run(c, k))
    ensures Run(c, k).entries == c.entries
    ensures Run(c, k).calls == if c.calls + k <= c.entries then c.calls + k else c.entries
  {
    if k != 0 {
      StepValid(c);
      RunValid(Step(c).0, k - 1);
    }
  }

  /**
   * After k <= n calls on an indicator for n entries, k entries are counted,
   * k / events_per_print messages have been printed and k % events_per_print
   * calls wait for the next one; further calls change nothing.
   */
  lemma RunFromInit(n: nat, k: nat)
    ensures var c := Run(Init(n), k);
      && c.calls == (if k <= n then k else n)
      && c.printed == c.calls / EventsPerPrint(n)
      && c.sincePrint == c.calls % EventsPerPrint(n)
  {
    InitValid(n);
    RunValid(Init(n), k);
    var c := Run(Init(n), k);
    assert Valid(c);
    assert c.entries == n;
    DivModUnique(c.calls, c.eventsPerPrint, c.printed, c.sincePrint);
  }

  lemma DivModUnique(a: nat, d: nat, q: nat, r: nat)
    requires d >= 1 && r < d && q * d + r == a
    ensures q == a / d && r == a % d
  {
    var q', r' := a / d, a % d;
    assert q' * d + r' == a;
    if q > q' {
      MulMonotone(d, 1, q - q');
    } else if q < q' {
      MulMonotone(d, 1, q' - q);
    }
  }

  /** Once all n entries are counted, more calls leave the counters alone. */
  lemma {:induction false} RunSaturates(c: Counters, k: nat)
    requires Valid(c) && c.calls == c.entries
    ensures Run(c, k) == c
  {
    if k != 0 {
      StepValid(c);
      RunSaturates(c, k - 1);
    }
  }

  /**
   * With 100 to 199 entries the increment is 1% and every call prints, so
   * the last call reports n% — 150% for 150 entries.
   */
  lemma PercentOverHundred(n: nat)
    requires 100 <= n < 200
    ensures Step(Run(Init(n), n - 1)).1 == Some(Finite(n))
  {
    RunFromInit(n, n - 1);
    InitValid(n);
    RunValid(Init(n), n - 1);
    var c := Run(Init(n), n - 1);
    PercentIncrementOne(n);
    assert c.eventsPerPrint == 1 && c.increment == Finite(1);
    assert c.printed == n - 1 && c.sincePrint == 0 && c.calls == n - 1;
  }

  /** Every percent printed is printed * increment, which can exceed 100 by almost a factor of two. */
  lemma PrintedPercent(n: nat, k: nat)
    requires k < n
    ensures var c := Run(Init(n), k);
      Step(c).1.Some? ==> Step(c).1.value == Times(c.printed + 1, PercentIncrement(n))
  {
    InitValid(n);
    RunValid(Init(n), k);
    StepValid(Run(Init(n), k));
  }

  /**
   * The evidently intended call: the same counters, a print wherever the
   * source prints and also at the call that counts the last entry, and the
   * percentage of entries counted so far, rounded down.
   */
  function CorrectedStep(c: Counters): (Counters, Option<Extended>)
  {
    var (d, p) := Step(c);
    if c.calls < c.entries && (p.Some? || c.calls + 1 == c.entries) then
      (d, Some(Finite(100 * (c.calls + 1) / c.entries)))
    else (d, None)
  }

  lemma PercentOfBound(a: nat, n: nat)
    requires 1 <= n && a <= n
    ensures 100 * a / n <= 100
    ensures a == n ==> 100 * a / n == 100
  {
    var q := 100 * a / n;
    assert q * n <= 100 * a;
    if q > 100 {
      MulMonotone(n, 101, q);
    }
    if a == n {
      DivModUnique(100 * n, n, 100, 0);
    }
  }

  /**
   * From construction, every percentage the corrected call prints is at most
   * 100, it prints wherever the source prints, and the call that counts the
   * n-th entry prints exactly 100.
   */
  lemma CorrectedPercent(n: nat, k: nat)
    requires k < n
    ensures var c := Run(Init(n), k);
      && CorrectedStep(c).0 == Step(c).0
      && (Step(c).1.Some? ==> CorrectedStep(c).1.Some?)
      && (CorrectedStep(c).1.Some? ==> CorrectedStep(c).1.value.Finite? && CorrectedStep(c).1.value.value <= 100)
      && (k == n - 1 ==> CorrectedStep(c).1 == Some(Finite(100)))
  {
    InitValid(n);
    RunValid(Init(n), k);
    var c := Run(Init(n), k);
    assert c.calls == k && c.entries == n;
    PercentOfBound(k + 1, n);
  }

  /**
   * When n is a positive multiple of 100 the source already behaves as
   * intended: the corrected call prints the same percentages at the same calls.
   */
  lemma CorrectedAgrees(n: nat, k: nat)
    requires n >= 100 && n % 100 == 0 && k < n
    ensures CorrectedStep(Run(Init(n), k)) == Step(Run(Init(n), k))
  {
    InitValid(n);
    RunValid(Init(n), k);
    RunFromInit(n, k);
    var c := Run(Init(n), k);
    var m := n / 100;
    PercentIncrementOne(n);
    assert c.entries == 100 * m && c.eventsPerPrint == m;
    if k + 1 == n {
      DivModUnique(n - 1, m, 99, m - 1);
    }
    AgreeStep(c, m);
  }

  /** One call of an indicator for 100 * m entries, printing at the last entry. */
  lemma AgreeStep(c: Counters, m: nat)
    requires Valid(c) && m >= 1 && c.entries == 100 * m && c.eventsPerPrint == m && c.calls < c.entries
    requires c.calls + 1 == c.entries ==> c.sincePrint + 1 == m
    ensures CorrectedStep(c) == Step(c)
  {
    PercentIncrementOne(c.entries);
    if c.sincePrint + 1 == m {
      assert (c.printed + 1) * m == c.calls + 1;
      CountsToPercent(c.calls + 1, m, c.printed + 1);
    }
  }

  /** q * m counted entries out of 100 * m are q percent. */
  lemma CountsToPercent(a: nat, m: nat, q: nat)
    requires m >= 1 && a == q * m
    ensures 100 * a / (100 * m) == q
  {
    assert 100 * a == q * (100 * m);
    DivModUnique(100 * a, 100 * m, q, 0);
  }

  /** `ProgressIndicator`. */
  class ProgressIndicator {
    var numEntries: nat
    var numEventsPerPrint: nat
    var numPrintedMsgs: nat
    var numOperatorCalls: nat
    var eventsPerPrint: nat
    var percentIncrement: Extended

    function State(): Counters
      reads this
    {
      Counters(numEntries, numEventsPerPrint, numPrintedMsgs, numOperatorCalls, eventsPerPrint, percentIncrement)
    }

    /** Construct with the number of entries that will be processed. */
    constructor(numberOfEntries: U64)
      ensures State() == Init(numberOfEntries as nat)
      ensures Valid(State())
    {
      var n := numberOfEntries as nat;
      var increment := PercentIncrement(n);
      var perPrint: nat;
      if increment == Finite(1) {
        perPrint := n / 100;
      } else {
        perPrint := 1;
      }
      assert perPrint == EventsPerPrint(n);
      InitValid(n);
      numEntries := n;
      numEventsPerPrint := 0;
      numPrintedMsgs := 0;
      numOperatorCalls := 0;
      percentIncrement := increment;
      eventsPerPrint := perPrint;
    }

    /** Count one entry; returns the percentage printed, if the threshold was reached. */
    method Call() returns (percent: Option<Extended>)
      requires Valid(State())
      modifies this
      ensures (State(), percent) == Step(old(State()))
      ensures Valid(State())
    {
      StepValid(State());
      if numOperatorCalls == numEntries {
        return None;
      }
      numOperatorCalls := numOperatorCalls + 1;
      numEventsPerPrint := numEventsPerPrint + 1;
      if numEventsPerPrint != eventsPerPrint {
        return None;
      }
      numPrintedMsgs := numPrintedMsgs + 1;
      percent := Some(Times(numPrintedMsgs, percentIncrement));
      numEventsPerPrint := 0;
    }
  }
}
