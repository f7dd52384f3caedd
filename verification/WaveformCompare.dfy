/** signal_extractor.py and check_security.py: comparing runs of a core by their waveforms. */
module WaveformCompare {
  import Bits
  import opened Stutter

  datatype Option<T> = None | Some(value: T)

  /** What value_at_time returns: a number, or text such as x or z. */
  datatype Value = Number(n: int) | Text(s: string)

  /** One (name, value) pair for each compared signal. */
  type Row = seq<(string, Value)>

  /** A loaded waveform; `active` names the signal that marks the cycles in which an
      instruction retires.  Clock edges have increasing times, so the period is positive. */
  datatype Waveform = Waveform(valueAt: (string, nat) -> Value, clockPeriod: nat, maxClock: nat, active: string)

  type CPUWaveform = w: Waveform | w.clockPeriod > 0 witness Waveform((_, _) => Number(0), 1, 0, "")

  function RowAt(w: CPUWaveform, signals: seq<string>, t: nat): Row
  {
    seq(|signals|, i requires 0 <= i < |signals| => (signals[i], w.valueAt(signals[i], t)))
  }

  /** Two rows are equal exactly when every listed signal shows the same value in both. */
  lemma RowsAgree(w: CPUWaveform, v: CPUWaveform, signals: seq<string>, t: nat, u: nat)
    ensures RowAt(w, signals, t) == RowAt(v, signals, u) <==> SameValues(w, t, v, u, signals)
  {
    if RowAt(w, signals, t) == RowAt(v, signals, u) {
      forall s | s in signals ensures w.valueAt(s, t) == v.valueAt(s, u) {
        var i :| 0 <= i < |signals| && signals[i] == s;
        assert RowAt(w, signals, t)[i] == RowAt(v, signals, u)[i];
      }
    }
  }

  ghost predicate SameValues(w: CPUWaveform, t: nat, v: CPUWaveform, u: nat, signals: seq<string>)
  {
    forall s :: s in signals ==> w.valueAt(s, t) == v.valueAt(s, u)
  }

  /** The number of sampling times 0, period, 2 * period, ... below maxClock + period. */
  function SampleCount(w: CPUWaveform): nat
  {
    (w.maxClock + w.clockPeriod + w.clockPeriod - 1) / w.clockPeriod
  }

  /** The rows of the first n samples, all of them or those with an active retirement stage. */
  function Rows(w: CPUWaveform, signals: seq<string>, n: nat): (rows: seq<Row>)
    ensures |rows| == n
  {
    seq(n, i requires 0 <= i < n => RowAt(w, signals, i * w.clockPeriod))
  }

  function ActiveRows(w: CPUWaveform, signals: seq<string>, n: nat): seq<Row>
  {
    if n == 0 then []
    else
      var t := (n - 1) * w.clockPeriod;
      if w.valueAt(w.active, t) == Number(0) then ActiveRows(w, signals, n - 1)
      else ActiveRows(w, signals, n - 1) + [RowAt(w, signals, t)]
  }

  lemma SampleTimes(w: CPUWaveform, n: nat)
    ensures n * w.clockPeriod < w.maxClock + w.clockPeriod <==> n < SampleCount(w)
  {
    var p, m := w.clockPeriod, w.maxClock + w.clockPeriod;
    var q := SampleCount(w);
    assert m + p - 1 == p * q + (m + p - 1) % p;
    if n < q {
      Bits.MulMonotone(n, q - 1, p);
      assert p * q == (q - 1) * p + p;
    } else {
      Bits.MulMonotone(q, n, p);
    }
  }

  method GetSignalsPerClk(w: CPUWaveform, signals: seq<string>) returns (rows: seq<Row>)
    ensures rows == Rows(w, signals, SampleCount(w))
  {
    rows := [];
    var t := 0;
    ghost var n := 0;
    SampleTimes(w, 0);
    while t < w.maxClock + w.clockPeriod
      invariant t == n * w.clockPeriod && rows == Rows(w, signals, n) && n <= SampleCount(w)
      decreases SampleCount(w) - n
    {
      SampleTimes(w, n);
      rows := rows + [RowAt(w, signals, t)];
      t := t + w.clockPeriod;
      n := n + 1;
    }
    SampleTimes(w, n);
  }

  method GetSignalsPerChange(w: CPUWaveform, signals: seq<string>) returns (rows: seq<Row>)
    ensures rows == Collapse(ActiveRows(w, signals, SampleCount(w)))
  {
    rows := [];
    var t := 0;
    ghost var n := 0;
    SampleTimes(w, 0);
    while t < w.maxClock + w.clockPeriod
      invariant t == n * w.clockPeriod && n <= SampleCount(w)
      invariant rows == Collapse(ActiveRows(w, signals, n))
      decreases SampleCount(w) - n
    {
      SampleTimes(w, n);
      var newState := RowAt(w, signals, t);
      var active := w.valueAt(w.active, t);
      if active != Number(0) {
        CollapseAppend(ActiveRows(w, signals, n), newState);
        if |rows| == 0 || newState != rows[|rows| - 1] {
          rows := rows + [newState];
        }
      }
      t := t + w.clockPeriod;
      n := n + 1;
    }
    SampleTimes(w, n);
  }

  // ---- compare_signals ----

  /** A truth value, or the IndexError of reading past the end of a shorter list. */
  datatype Outcome = Verdict(same: bool) | IndexError

  /** The rows a comparison looks at. */
  function Compared(w: CPUWaveform, signals: seq<string>, timingSensitive: bool): seq<Row>
  {
    if timingSensitive then Rows(w, signals, SampleCount(w)) else Collapse(ActiveRows(w, signals, SampleCount(w)))
  }

  ghost predicate DiffersWithin(a: seq<Row>, b: seq<Row>, n: nat)
  {
    exists i :: 0 <= i < n && i < |a| && i < |b| && a[i] != b[i]
  }

  /** What the row-by-row display finds: it walks the first list only. */
  ghost predicate Displayed(a: seq<Row>, b: seq<Row>, earlyOut: bool, o: Outcome)
  {
    match o
    case Verdict(true) => a <= b
    case Verdict(false) => DiffersWithin(a, b, |a|) && (earlyOut || |a| <= |b|)
    case IndexError => |a| > |b| && (earlyOut ==> !DiffersWithin(a, b, |a|))
  }

  method CompareSignals(self: CPUWaveform, other: CPUWaveform, signals: seq<string>,
                        timingSensitive: bool, displayDiff: bool, earlyOut: bool) returns (o: Outcome)
    ensures var a, b := Compared(self, signals, timingSensitive), Compared(other, signals, timingSensitive);
            if displayDiff then Displayed(a, b, earlyOut, o) else o == Verdict(a == b)
  {
    var a, b;
    if timingSensitive {
      a := GetSignalsPerClk(self, signals);
      b := GetSignalsPerClk(other, signals);
    } else {
      a := GetSignalsPerChange(self, signals);
      b := GetSignalsPerChange(other, signals);
    }
    if !displayDiff {
      return Verdict(a == b);
    }
    var mismatch := false;
    var idx := 0;
    while idx < |a|
      invariant 0 <= idx <= |a| && idx <= |b|
      invariant mismatch <==> DiffersWithin(a, b, idx)
      invariant earlyOut ==> !mismatch
    {
      if idx >= |b| {
        return IndexError;
      }
      if a[idx] != b[idx] {
        assert DiffersWithin(a, b, idx + 1);
        if earlyOut {
          return Verdict(false);
        }
        mismatch := true;
      }
      idx := idx + 1;
    }
    return Verdict(!mismatch);
  }

  /** With early exit, the display agrees with plain comparison unless one list is a proper
      prefix of the other; without, unless the first is, or the second list is shorter. */
  lemma DisplayAgreesWhen(a: seq<Row>, b: seq<Row>, earlyOut: bool, o: Outcome)
    requires Displayed(a, b, earlyOut, o)
    ensures o == Verdict(a == b) <==> !(a < b) && if earlyOut then !(b < a) else |a| <= |b|
  {
    if |a| <= |b| {
      if !(a <= b) { var i :| 0 <= i < |a| && a[i] != b[i]; assert DiffersWithin(a, b, |a|); }
    } else {
      if !(b <= a) { var i :| 0 <= i < |b| && a[i] != b[i]; assert DiffersWithin(a, b, |a|); }
    }
  }

  /** A core that is always active and shows the time, up to the given one. */
  function Clock(maxClock: nat): CPUWaveform
  {
    Waveform((_, t) => Number(t + 1), 1, maxClock, "active")
  }

  lemma CollapseOne(r: Row)
    ensures Collapse([r]) == [r]
  {}

  lemma ClockRows(maxClock: nat)
    requires maxClock < 2
    ensures Compared(Clock(maxClock), ["s"], false)
         == if maxClock == 0 then [[("s", Number(1))]] else [[("s", Number(1))], [("s", Number(2))]]
  {
    var w, r0, r1 := Clock(maxClock), [("s", Number(1))], [("s", Number(2))];
    assert SampleCount(w) == maxClock + 1;
    assert RowAt(w, ["s"], 0) == r0 && RowAt(w, ["s"], 1) == r1;
    assert ActiveRows(w, ["s"], 0) == [] && ActiveRows(w, ["s"], 1) == [r0];
    CollapseOne(r0);
    if maxClock == 1 {
      assert ActiveRows(w, ["s"], 2) == [r0] + [r1];
      CollapseAppend([r0], r1);
    }
  }

  /** A run and a longer one: the display calls them the same one way round, and reads past the
      end of the shorter list the other way, with early exit and without. */
  lemma PrefixDisplay(earlyOut: bool, o: Outcome)
    ensures var a, b := Compared(Clock(0), ["s"], false), Compared(Clock(1), ["s"], false);
            && a != b
            && (Displayed(a, b, earlyOut, o) ==> o == Verdict(true))
            && (Displayed(b, a, earlyOut, o) ==> o == IndexError)
  {
    hide Compared;
    ClockRows(0);
    ClockRows(1);
  }

  // ---- what the comparison means ----

  /** The runs show the same signal values to an observer who cannot tell how long they last. */
  ghost predicate Indistinguishable(w: CPUWaveform, v: CPUWaveform, signals: seq<string>)
  {
    StutterEquivalent(ActiveRows(w, signals, SampleCount(w)), ActiveRows(v, signals, SampleCount(v)))
  }

  lemma ComparisonDecides(w: CPUWaveform, v: CPUWaveform, signals: seq<string>)
    ensures Compared(w, signals, false) == Compared(v, signals, false) <==> Indistinguishable(w, v, signals)
  {
    CollapseDecides(ActiveRows(w, signals, SampleCount(w)), ActiveRows(v, signals, SampleCount(v)));
  }

  /** The sampling times at which an instruction retires, in order. */
  function ActiveTimes(w: CPUWaveform, n: nat): (times: seq<nat>)
    ensures forall t :: t in times <==>
              exists k :: 0 <= k < n && t == k * w.clockPeriod && w.valueAt(w.active, t) != Number(0)
  {
    if n == 0 then []
    else
      var t := (n - 1) * w.clockPeriod;
      var before := ActiveTimes(w, n - 1);
      if w.valueAt(w.active, t) == Number(0) then before else before + [t]
  }

  lemma {:induction false} ActiveInOrder(w: CPUWaveform, n: nat)
    ensures forall i, j :: 0 <= i < j < |ActiveTimes(w, n)| ==> ActiveTimes(w, n)[i] < ActiveTimes(w, n)[j]
  {
    if n > 0 {
      ActiveInOrder(w, n - 1);
      var times := ActiveTimes(w, n - 1);
      forall i | 0 <= i < |times| ensures times[i] < (n - 1) * w.clockPeriod {
        assert times[i] in times;
        var k :| 0 <= k < n - 1 && times[i] == k * w.clockPeriod;
        Bits.MulMonotone(k, n - 2, w.clockPeriod);
        assert (n - 1) * w.clockPeriod == (n - 2) * w.clockPeriod + w.clockPeriod;
      }
    }
  }

  lemma {:induction false} RowsAtTimes(w: CPUWaveform, signals: seq<string>, n: nat)
    ensures |ActiveRows(w, signals, n)| == |ActiveTimes(w, n)|
    ensures forall i :: 0 <= i < |ActiveTimes(w, n)| ==>
              ActiveRows(w, signals, n)[i] == RowAt(w, signals, ActiveTimes(w, n)[i])
  {
    if n > 0 { RowsAtTimes(w, signals, n - 1); }
  }

  /** The active times of both runs can be cut into equally many blocks, so that all signals
      show the same values at any two times from corresponding blocks. */
  ghost predicate SameBlocks(w: CPUWaveform, v: CPUWaveform, signals: seq<string>)
  {
    var ts, us := ActiveTimes(w, SampleCount(w)), ActiveTimes(v, SampleCount(v));
    exists k, f, g :: Blocks(f, |ts|, k) && Blocks(g, |us|, k) &&
      forall i, j :: 0 <= i < |ts| && 0 <= j < |us| && f[i] == g[j] ==> SameValues(w, ts[i], v, us[j], signals)
  }

  /** What indistinguishability says of the values themselves. */
  lemma IndistinguishableMeans(w: CPUWaveform, v: CPUWaveform, signals: seq<string>)
    ensures Indistinguishable(w, v, signals) <==> SameBlocks(w, v, signals)
  {
    hide RowAt, SameValues, ActiveTimes, ActiveRows;
    var ts, us := ActiveTimes(w, SampleCount(w)), ActiveTimes(v, SampleCount(v));
    var a, b := ActiveRows(w, signals, SampleCount(w)), ActiveRows(v, signals, SampleCount(v));
    RowsAtTimes(w, signals, SampleCount(w));
    RowsAtTimes(v, signals, SampleCount(v));
    BlocksDecide(a, b);
    forall i, j | 0 <= i < |ts| && 0 <= j < |us| ensures a[i] == b[j] <==> SameValues(w, ts[i], v, us[j], signals) {
      RowsAgree(w, v, signals, ts[i], us[j]);
    }
  }

  /** What equality clock by clock says of them. */
  lemma ClockEqualityMeans(w: CPUWaveform, v: CPUWaveform, signals: seq<string>)
    ensures Compared(w, signals, true) == Compared(v, signals, true) <==>
            && SampleCount(w) == SampleCount(v)
            && forall i :: 0 <= i < SampleCount(w) ==> SameValues(w, i * w.clockPeriod, v, i * v.clockPeriod, signals)
  {
    hide RowAt, SameValues;
    var a, b := Compared(w, signals, true), Compared(v, signals, true);
    if |a| == |b| {
      forall i | 0 <= i < |a|
        ensures a[i] == b[i] <==> SameValues(w, i * w.clockPeriod, v, i * v.clockPeriod, signals)
      {
        RowsAgree(w, v, signals, i * w.clockPeriod, i * v.clockPeriod);
      }
    }
  }

  /** The rows of active cycles, recovered from the rows of all cycles. */
  function ActiveOf(rows: seq<Row>, k: nat): seq<Row>
    requires forall r :: r in rows ==> k < |r|
  {
    if rows == [] then []
    else
      var init, r := ActiveOf(rows[..|rows| - 1], k), rows[|rows| - 1];
      if r[k].1 == Number(0) then init else init + [r]
  }

  lemma {:induction false} ActiveFromRows(w: CPUWaveform, signals: seq<string>, n: nat, k: nat)
    requires k < |signals| && signals[k] == w.active
    ensures ActiveRows(w, signals, n) == ActiveOf(Rows(w, signals, n), k)
  {
    if n > 0 {
      ActiveFromRows(w, signals, n - 1, k);
      assert Rows(w, signals, n)[..n - 1] == Rows(w, signals, n - 1);
    }
  }

  /** Equality clock by clock is the finer comparison, if the active signal is compared. */
  lemma TimingSensitiveIsFiner(w: CPUWaveform, v: CPUWaveform, signals: seq<string>)
    requires w.active == v.active && w.active in signals
    requires Compared(w, signals, true) == Compared(v, signals, true)
    ensures Compared(w, signals, false) == Compared(v, signals, false)
    ensures Indistinguishable(w, v, signals)
  {
    var k :| 0 <= k < |signals| && signals[k] == w.active;
    assert |Rows(w, signals, SampleCount(w))| == |Rows(v, signals, SampleCount(v))|;
    ActiveFromRows(w, signals, SampleCount(w), k);
    ActiveFromRows(v, signals, SampleCount(v), k);
    ComparisonDecides(w, v, signals);
  }

  // ---- secure_for_all_inputs ----

  ghost predicate PairwiseIndistinguishable(runs: seq<CPUWaveform>, signals: seq<string>)
  {
    forall i, j :: 0 <= i < |runs| && 0 <= j < |runs| ==> Indistinguishable(runs[i], runs[j], signals)
  }

  class SecurityChecker {
    // The module's global: the first call chooses the signals for all later ones.
    var policySignals: Option<seq<string>>

    constructor ()
      ensures policySignals == None
    {
      policySignals := None;
    }

    /** Every run is compared with the first; without display this decides whether all pairs of
        runs are indistinguishable. */
    method SecureForAllInputs(runs: seq<CPUWaveform>, filter: CPUWaveform -> seq<string>, displayDiff: bool)
      returns (o: Outcome)
      modifies this
      ensures runs == [] ==> o == IndexError && policySignals == old(policySignals)
      ensures runs != [] ==>
                policySignals == Some(if old(policySignals).Some? then old(policySignals).value else filter(runs[0]))
      ensures runs != [] && !displayDiff ==>
                o == Verdict(PairwiseIndistinguishable(runs, policySignals.value))
      ensures runs != [] && displayDiff ==> Shown(runs, policySignals.value, o)
      ensures runs != [] && displayDiff && EqualLengths(runs, policySignals.value) ==>
                o == Verdict(PairwiseIndistinguishable(runs, policySignals.value))
    {
      if |runs| == 0 {
        return IndexError;
      }
      if policySignals == None {
        policySignals := Some(filter(runs[0]));
      }
      hide EqualLengths, Shown, PairwiseIndistinguishable;
      o := AllLikeFirst(runs, policySignals.value, displayDiff);
      if displayDiff && EqualLengths(runs, policySignals.value) { ShownAtEqualLengths(runs, policySignals.value, o); }
    }
  }

  /** The loop over the runs after the first. */
  method AllLikeFirst(runs: seq<CPUWaveform>, signals: seq<string>, displayDiff: bool) returns (o: Outcome)
    requires runs != []
    ensures if displayDiff then Shown(runs, signals, o) else o == Verdict(PairwiseIndistinguishable(runs, signals))
  {
    hide Compared, Displayed, Indistinguishable, AllExtend, PairwiseIndistinguishable;
    FirstRun(runs, signals);
    var i := 1;
    while i < |runs|
      invariant 1 <= i <= |runs|
      invariant displayDiff ==> AllExtend(runs[0], runs, i, signals)
      invariant !displayDiff ==> forall j :: 0 <= j < i ==> Indistinguishable(runs[0], runs[j], signals)
    {
      var r := CompareSignals(runs[0], runs[i], signals, false, displayDiff, true);
      OneRun(runs, i, signals, displayDiff, r);
      if r != Verdict(true) {
        return r;
      }
      i := i + 1;
    }
    if !displayDiff { BaseSuffices(runs, signals); }
    return Verdict(true);
  }

  lemma FirstRun(runs: seq<CPUWaveform>, signals: seq<string>)
    requires runs != []
    ensures AllExtend(runs[0], runs, 1, signals) && Indistinguishable(runs[0], runs[0], signals)
  {
    ComparisonDecides(runs[0], runs[0], signals);
  }

  /** What the outcome r of comparing the base with run i says. */
  lemma OneRun(runs: seq<CPUWaveform>, i: nat, signals: seq<string>, displayDiff: bool, r: Outcome)
    requires i < |runs|
    requires var a, b := Compared(runs[0], signals, false), Compared(runs[i], signals, false);
             if displayDiff then Displayed(a, b, true, r) else r == Verdict(a == b)
    ensures displayDiff && AllExtend(runs[0], runs, i, signals) ==>
              if r == Verdict(true) then AllExtend(runs[0], runs, i + 1, signals)
              else FailsFirst(runs, i, signals) && (r == IndexError <==> CutShort(runs, i, signals))
    ensures !displayDiff ==> r == Verdict(Indistinguishable(runs[0], runs[i], signals))
    ensures !displayDiff && r != Verdict(true) ==> !PairwiseIndistinguishable(runs, signals)
  {
    hide Compared, Indistinguishable;
    ComparisonDecides(runs[0], runs[i], signals);
    if displayDiff {
      DisplayAgreesWhen(Compared(runs[0], signals, false), Compared(runs[i], signals, false), true, r);
    }
  }

  /** The rows of every one of the first n runs begin with those of the base. */
  ghost predicate AllExtend(base: CPUWaveform, runs: seq<CPUWaveform>, n: nat, signals: seq<string>)
    requires n <= |runs|
  {
    forall j :: 0 <= j < n ==> Compared(base, signals, false) <= Compared(runs[j], signals, false)
  }

  /** Run j is the first whose rows do not begin with those of the base. */
  ghost predicate FailsFirst(runs: seq<CPUWaveform>, j: nat, signals: seq<string>)
  {
    && j < |runs| && AllExtend(runs[0], runs, j, signals)
    && !(Compared(runs[0], signals, false) <= Compared(runs[j], signals, false))
  }

  /** Its rows stop before they differ from those of the base. */
  ghost predicate CutShort(runs: seq<CPUWaveform>, j: nat, signals: seq<string>)
    requires j < |runs|
  {
    Compared(runs[j], signals, false) < Compared(runs[0], signals, false)
  }

  /** The outcome with display. */
  ghost predicate Shown(runs: seq<CPUWaveform>, signals: seq<string>, o: Outcome)
    requires runs != []
  {
    match o
    case Verdict(true) => AllExtend(runs[0], runs, |runs|, signals)
    case Verdict(false) => exists j :: FailsFirst(runs, j, signals) && !CutShort(runs, j, signals)
    case IndexError => exists j :: FailsFirst(runs, j, signals) && CutShort(runs, j, signals)
  }

  ghost predicate EqualLengths(runs: seq<CPUWaveform>, signals: seq<string>)
  {
    forall i, j :: 0 <= i < |runs| && 0 <= j < |runs| ==>
      |Compared(runs[i], signals, false)| == |Compared(runs[j], signals, false)|
  }

  /** With display the verdict is still pairwise indistinguishability exactly when a base that
      every list begins with is all of every list, and otherwise the first list that does not
      begin with it is not one that merely stops short of it. */
  lemma ShownAgreesWhen(runs: seq<CPUWaveform>, signals: seq<string>, o: Outcome)
    requires runs != [] && Shown(runs, signals, o)
    ensures o == Verdict(PairwiseIndistinguishable(runs, signals)) <==>
            && (AllExtend(runs[0], runs, |runs|, signals) ==>
                  forall j :: 0 <= j < |runs| ==>
                    Compared(runs[0], signals, false) == Compared(runs[j], signals, false))
            && forall j :: FailsFirst(runs, j, signals) ==> !CutShort(runs, j, signals)
  {
    hide Compared, Indistinguishable;
    AllEqual(runs, signals);
    forall j, k | FailsFirst(runs, j, signals) && FailsFirst(runs, k, signals) ensures j == k {}
  }

  lemma AllEqual(runs: seq<CPUWaveform>, signals: seq<string>)
    requires runs != []
    ensures PairwiseIndistinguishable(runs, signals) <==>
            forall j :: 0 <= j < |runs| ==> Compared(runs[0], signals, false) == Compared(runs[j], signals, false)
  {
    hide Compared, Indistinguishable;
    forall j | 0 <= j < |runs|
      ensures Compared(runs[0], signals, false) == Compared(runs[j], signals, false)
         <==> Indistinguishable(runs[0], runs[j], signals)
    {
      ComparisonDecides(runs[0], runs[j], signals);
    }
    if forall j :: 0 <= j < |runs| ==> Indistinguishable(runs[0], runs[j], signals) { BaseSuffices(runs, signals); }
  }

  lemma ShownAtEqualLengths(runs: seq<CPUWaveform>, signals: seq<string>, o: Outcome)
    requires runs != [] && Shown(runs, signals, o) && EqualLengths(runs, signals)
    ensures o == Verdict(PairwiseIndistinguishable(runs, signals))
  {
    hide Compared, PairwiseIndistinguishable;
    ShownAgreesWhen(runs, signals, o);
  }

  /** Indistinguishability is transitive, so comparing with one run is enough. */
  lemma BaseSuffices(runs: seq<CPUWaveform>, signals: seq<string>)
    requires runs != [] && forall j :: 0 <= j < |runs| ==> Indistinguishable(runs[0], runs[j], signals)
    ensures PairwiseIndistinguishable(runs, signals)
  {
    forall i, j | 0 <= i < |runs| && 0 <= j < |runs| ensures Indistinguishable(runs[i], runs[j], signals) {
      ComparisonDecides(runs[0], runs[i], signals);
      ComparisonDecides(runs[0], runs[j], signals);
      ComparisonDecides(runs[i], runs[j], signals);
    }
  }
}
