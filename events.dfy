/** The four signals the conversion task emits (progress, message, error,
    finished), an event trace, and the laws a trace of one run must obey. */
module Events {

  datatype Event =
    | Progress(percent: int)
    | Message(text: string)
    | Error(text: string)
    | Finished

  /** Number of `Finished` events in a trace. */
  function FinishedCount(t: seq<Event>): nat
  {
    if t == [] then 0 else (if t[0].Finished? then 1 else 0) + FinishedCount(t[1..])
  }

  /** Number of `Error` events in a trace. */
  function ErrorCount(t: seq<Event>): nat
  {
    if t == [] then 0 else (if t[0].Error? then 1 else 0) + ErrorCount(t[1..])
  }

  /** The percentages of the `Progress` events, in emission order. */
  function ProgressValues(t: seq<Event>): seq<int>
  {
    if t == [] then []
    else (if t[0].Progress? then [t[0].percent] else []) + ProgressValues(t[1..])
  }

  lemma {:induction false} FinishedCountAppend(a: seq<Event>, b: seq<Event>)
    ensures FinishedCount(a + b) == FinishedCount(a) + FinishedCount(b)
  {
    if a != [] {
      assert (a + b)[1..] == a[1..] + b;
      FinishedCountAppend(a[1..], b);
    } else {
      assert a + b == b;
    }
  }

  lemma {:induction false} ErrorCountAppend(a: seq<Event>, b: seq<Event>)
    ensures ErrorCount(a + b) == ErrorCount(a) + ErrorCount(b)
  {
    if a != [] {
      assert (a + b)[1..] == a[1..] + b;
      ErrorCountAppend(a[1..], b);
    } else {
      assert a + b == b;
    }
  }

  lemma {:induction false} ProgressValuesAppend(a: seq<Event>, b: seq<Event>)
    ensures ProgressValues(a + b) == ProgressValues(a) + ProgressValues(b)
  {
    if a != [] {
      assert (a + b)[1..] == a[1..] + b;
      ProgressValuesAppend(a[1..], b);
    } else {
      assert a + b == b;
    }
  }

  /** How each projection grows when one event is emitted. */
  lemma {:induction false} EmitOne(t: seq<Event>, e: Event)
    ensures ProgressValues(t + [e]) == ProgressValues(t) + (if e.Progress? then [e.percent] else [])
    ensures ErrorCount(t + [e]) == ErrorCount(t) + (if e.Error? then 1 else 0)
    ensures FinishedCount(t + [e]) == FinishedCount(t) + (if e.Finished? then 1 else 0)
  {
    ProgressValuesAppend(t, [e]);
    ErrorCountAppend(t, [e]);
    FinishedCountAppend(t, [e]);
    assert [e][1..] == [];
  }

  /** A progress event occurs in a trace exactly when its percentage occurs
      among the trace's progress values. */
  lemma {:induction false} ProgressOccurs(t: seq<Event>, n: int)
    ensures Progress(n) in t <==> n in ProgressValues(t)
  {
    if t != [] {
      ProgressOccurs(t[1..], n);
      assert t == [t[0]] + t[1..];
    }
  }

  /** A trace mentions `Finished` only if its count says so. */
  lemma {:induction false} FinishedCountZero(t: seq<Event>)
    requires FinishedCount(t) == 0
    ensures Finished !in t
  {
    if t != [] {
      FinishedCountZero(t[1..]);
      assert t == [t[0]] + t[1..];
    }
  }

  predicate NonDecreasing(s: seq<int>)
  {
    forall i, j :: 0 <= i < j < |s| ==> s[i] <= s[j]
  }

  predicate Percentages(s: seq<int>)
  {
    forall i :: 0 <= i < |s| ==> 0 <= s[i] <= 100
  }

  /** `Finished` occurs exactly once, as the last event. */
  predicate FinishedOnceAtEnd(t: seq<Event>)
  {
    |t| > 0 && t[|t| - 1] == Finished && FinishedCount(t) == 1
  }

  /** What the display layer relies on for one run: completion exactly once
      and last, percentages in 0..100 that never go down, at most one error. */
  predicate WellFormedRun(t: seq<Event>)
  {
    && FinishedOnceAtEnd(t)
    && Percentages(ProgressValues(t))
    && NonDecreasing(ProgressValues(t))
    && ErrorCount(t) <= 1
  }

  /** `FinishedOnceAtEnd` says that no event before the last is `Finished`. */
  lemma {:induction false} FinishedOnlyAtEnd(t: seq<Event>)
    requires FinishedOnceAtEnd(t)
    ensures forall i :: 0 <= i < |t| - 1 ==> t[i] != Finished
  {
    var n := |t|;
    assert t == t[..n - 1] + [t[n - 1]];
    FinishedCountAppend(t[..n - 1], [t[n - 1]]);
    assert FinishedCount([t[n - 1]]) == 1;
    FinishedCountZero(t[..n - 1]);
    forall i | 0 <= i < n - 1 ensures t[i] != Finished {
      assert t[i] == t[..n - 1][i];
    }
  }
}
