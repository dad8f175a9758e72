/** runtime/scheduler.js: the registered render callback, render requests,
    and the effect pass that follows every render. */
module Scheduler {
  import opened Js
  import opened RuntimeState

  /** The module-level `scheduledRender`, naming the root whose callback is
      registered, and the render requests made so far, each naming the root
      whose callback the request invokes. */
  class Scheduler {
    var scheduledRender: Option<nat>
    var requests: seq<nat>

    constructor()
      ensures scheduledRender.None? && requests == []
    {
      scheduledRender := None;
      requests := [];
    }

    /** `setRender(fn)`: the callback of root `id` replaces any earlier one. */
    method SetRender(id: nat)
      modifies this
      ensures scheduledRender == Some(id) && requests == old(requests)
    {
      scheduledRender := Some(id);
    }

    /** `scheduleRender()`: a request to the registered callback, made exactly
        when one is registered. */
    method ScheduleRender()
      modifies this
      ensures scheduledRender == old(scheduledRender)
      ensures requests == old(requests) + Requested(scheduledRender)
    {
      if scheduledRender.Some? {
        requests := requests + [scheduledRender.value];
      }
    }
  }

  /** The requests one `scheduleRender` call adds: one to the registered
      callback, none when there is none. */
  function Requested(registered: Option<nat>): (r: seq<nat>)
    ensures |r| == 1 <==> registered.Some?
    ensures |r| == 0 <==> registered.None?
    ensures registered.Some? ==> r == [registered.value]
  {
    if registered.Some? then [registered.value] else []
  }

  /** The cleanup a slot keeps after its effect returned `returned`: the
      returned function, or nothing. */
  function CleanupOf(returned: Value): (r: Option<nat>)
    ensures r.Some? <==> returned.Fn?
    ensures r.Some? ==> r.value == returned.id
  {
    if returned.Fn? then Some(returned.id) else None
  }

  /** A slot after the pass: its effect ran and it keeps what that returned. */
  function RanSlot(e: Option<EffectRecord>, results: nat -> Value): (r: Option<EffectRecord>)
    ensures r.None? <==> e.None?
    ensures e.Some? ==> r.value.effect == e.value.effect && r.value.deps == e.value.deps
    ensures e.Some? ==> r.value.cleanup == CleanupOf(results(e.value.effect))
  {
    match e
    case None => None
    case Some(rec) => Some(rec.(cleanup := CleanupOf(results(rec.effect))))
  }

  /** The effect slots after a pass. `results(f)` is what effect `f` returns. */
  function AfterPass(effects: seq<Option<EffectRecord>>, results: nat -> Value): (r: seq<Option<EffectRecord>>)
    ensures |r| == |effects|
    ensures forall i :: 0 <= i < |r| ==> r[i] == RanSlot(effects[i], results)
  {
    seq(|effects|, i requires 0 <= i < |effects| => RanSlot(effects[i], results))
  }

  /** The entries one slot adds to the log: a cleanup entry when it holds a
      cleanup, then a run entry; nothing for an empty slot. */
  function SlotLog(effects: seq<Option<EffectRecord>>, i: nat): seq<LogEntry>
    requires i < |effects|
  {
    match effects[i]
    case None => []
    case Some(e) =>
      (if e.cleanup.Some? then [LogEntry(CleanupRan, i, e.deps)] else []) + [LogEntry(EffectRan, i, e.deps)]
  }

  /** The entries the slots from i onwards add, in ascending slot order. */
  function PassLog(effects: seq<Option<EffectRecord>>, i: nat): seq<LogEntry>
    decreases |effects| - i
  {
    if i >= |effects| then [] else SlotLog(effects, i) + PassLog(effects, i + 1)
  }

  /** `runEffects()`: every non-empty slot, in ascending order, runs its
      cleanup if it has one, runs its effect, and keeps the returned cleanup. */
  method RunEffects(st: State, results: nat -> Value)
    modifies st
    ensures st.effects == AfterPass(old(st.effects), results)
    ensures st.effectLog == old(st.effectLog) + PassLog(old(st.effects), 0)
    ensures st.hooks == old(st.hooks) && st.hookIndex == old(st.hookIndex) && st.effectIndex == old(st.effectIndex)
    ensures st.currentComponentName == old(st.currentComponentName)
  {
    ghost var start := st.effects;
    ghost var log0 := st.effectLog;
    var i := 0;
    while i < |st.effects|
      invariant |st.effects| == |start| && i <= |start|
      invariant forall j :: 0 <= j < i ==> st.effects[j] == RanSlot(start[j], results)
      invariant forall j :: i <= j < |start| ==> st.effects[j] == start[j]
      invariant st.effectLog + PassLog(start, i) == log0 + PassLog(start, 0)
      invariant st.hooks == old(st.hooks) && st.hookIndex == old(st.hookIndex) && st.effectIndex == old(st.effectIndex)
      invariant st.currentComponentName == old(st.currentComponentName)
      decreases |start| - i
    {
      ghost var before := st.effectLog;
      var e := st.effects[i];
      if e.Some? {
        var rec := e.value;
        if rec.cleanup.Some? {
          st.effectLog := st.effectLog + [LogEntry(CleanupRan, i, rec.deps)];
        }
        var cleanup := results(rec.effect);
        st.effectLog := st.effectLog + [LogEntry(EffectRan, i, rec.deps)];
        st.effects := st.effects[i := Some(rec.(cleanup := CleanupOf(cleanup)))];
      }
      assert st.effectLog == before + SlotLog(start, i);
      PassLogStep(st.effectLog, before, start, i);
      i := i + 1;
    }
    assert st.effects == AfterPass(start, results);
  }

  lemma PassLogStep(log: seq<LogEntry>, before: seq<LogEntry>, effects: seq<Option<EffectRecord>>, i: nat)
    requires i < |effects| && log == before + SlotLog(effects, i)
    ensures log + PassLog(effects, i + 1) == before + PassLog(effects, i)
  {
  }

  /** The slots of the log entries of one kind, in log order. */
  function SlotsOf(log: seq<LogEntry>, kind: LogKind): seq<nat>
  {
    if log == [] then []
    else (if log[0].kind == kind then [log[0].slot] else []) + SlotsOf(log[1..], kind)
  }

  lemma {:induction false} SlotsOfAppend(a: seq<LogEntry>, b: seq<LogEntry>, kind: LogKind)
    ensures SlotsOf(a + b, kind) == SlotsOf(a, kind) + SlotsOf(b, kind)
  {
    if a != [] {
      assert (a + b)[1..] == a[1..] + b;
      assert (a + b)[0] == a[0];
      SlotsOfAppend(a[1..], b, kind);
      var x := if a[0].kind == kind then [a[0].slot] else [];
      assert SlotsOf(a + b, kind) == x + SlotsOf(a[1..] + b, kind);
      assert SlotsOf(a, kind) == x + SlotsOf(a[1..], kind);
    } else {
      assert a + b == b;
    }
  }

  /** The non-empty slots from i onwards, ascending; with `needCleanup`, only
      those holding a cleanup. */
  function FilledFrom(effects: seq<Option<EffectRecord>>, i: nat, needCleanup: bool): seq<nat>
    decreases |effects| - i
  {
    if i >= |effects| then []
    else
      (if effects[i].Some? && (!needCleanup || effects[i].value.cleanup.Some?) then [i] else [])
      + FilledFrom(effects, i + 1, needCleanup)
  }

  /** Every non-empty slot runs its effect exactly once per pass, in ascending
      slot order, whatever its deps; exactly the slots holding a cleanup run
      it, in the same order. */
  lemma {:induction false} PassRunsEverySlot(effects: seq<Option<EffectRecord>>, i: nat)
    ensures SlotsOf(PassLog(effects, i), EffectRan) == FilledFrom(effects, i, false)
    ensures SlotsOf(PassLog(effects, i), CleanupRan) == FilledFrom(effects, i, true)
    decreases |effects| - i
  {
    if i < |effects| {
      PassRunsEverySlot(effects, i + 1);
      SlotsOfAppend(SlotLog(effects, i), PassLog(effects, i + 1), EffectRan);
      SlotsOfAppend(SlotLog(effects, i), PassLog(effects, i + 1), CleanupRan);
      if effects[i].Some? && effects[i].value.cleanup.Some? {
        var d := effects[i].value.deps;
        SlotsOfAppend([LogEntry(CleanupRan, i, d)], [LogEntry(EffectRan, i, d)], EffectRan);
        SlotsOfAppend([LogEntry(CleanupRan, i, d)], [LogEntry(EffectRan, i, d)], CleanupRan);
      }
    }
  }

  /** The log grows by one entry per non-empty slot and one more per slot
      holding a cleanup: between one and two entries per non-empty slot. */
  lemma {:induction false} PassLogLength(effects: seq<Option<EffectRecord>>, i: nat)
    ensures |PassLog(effects, i)| == |FilledFrom(effects, i, false)| + |FilledFrom(effects, i, true)|
    ensures |FilledFrom(effects, i, false)| <= |PassLog(effects, i)| <= 2 * |FilledFrom(effects, i, false)|
    decreases |effects| - i
  {
    if i < |effects| {
      PassLogLength(effects, i + 1);
    }
  }

  /** Entry p of a pass log: it names a non-empty slot at or after i and
      carries that slot's deps, and a cleanup entry is immediately followed by
      the run entry of the same slot. */
  ghost predicate EntryShape(effects: seq<Option<EffectRecord>>, log: seq<LogEntry>, i: nat, p: nat)
    requires p < |log|
  {
    i <= log[p].slot < |effects| && effects[log[p].slot].Some?
    && log[p].deps == effects[log[p].slot].value.deps
    && (log[p].kind == CleanupRan ==> p + 1 < |log| && log[p + 1] == LogEntry(EffectRan, log[p].slot, log[p].deps))
  }

  /** A slot's cleanup runs strictly before its effect, right before it, and
      every entry carries the slot index and deps of a non-empty slot. */
  lemma {:induction false} PassLogShape(effects: seq<Option<EffectRecord>>, i: nat)
    ensures forall p :: 0 <= p < |PassLog(effects, i)| ==> EntryShape(effects, PassLog(effects, i), i, p)
    decreases |effects| - i
  {
    if i < |effects| {
      PassLogShape(effects, i + 1);
      var head := SlotLog(effects, i);
      var rest := PassLog(effects, i + 1);
      var log := head + rest;
      assert log == PassLog(effects, i);
      forall p | 0 <= p < |log|
        ensures EntryShape(effects, log, i, p)
      {
        if p >= |head| {
          var q := p - |head|;
          assert EntryShape(effects, rest, i + 1, q);
          assert log[p] == rest[q];
          if q + 1 < |rest| {
            assert log[p + 1] == rest[q + 1];
          }
        } else {
          var e := effects[i].value;
          if e.cleanup.Some? {
            assert head == [LogEntry(CleanupRan, i, e.deps), LogEntry(EffectRan, i, e.deps)];
          } else {
            assert head == [LogEntry(EffectRan, i, e.deps)];
          }
          assert log[p] == head[p];
          if p + 1 < |head| {
            assert log[p + 1] == head[p + 1];
          }
        }
      }
    }
  }
}
