/** Round-robin scheduling from the timer interrupt. */
module Scheduler {
  const QUANTUM: nat := 20
  const MAX_TASKS: nat := 4
  const WORD: nat := 0x1_0000_0000

  datatype TaskState = Unused | Runnable | Running | Sleeping | Exited
  datatype Task = Task(frame: nat, ticks: nat, runs: nat, state: TaskState)
  datatype State = State(tasks: seq<Task>, current: nat, quantum: nat, switches: nat, pending: bool)

  /** What can happen: the timer interrupts with a frame, someone asks for a reschedule, or the current task ends. */
  datatype Event = Timer(frame: nat) | Request | Exit

  predicate Ready(t: Task)
  {
    t.state == Runnable || t.state == Running
  }

  // ---------------------------------------------------------------- choosing

  /** `i` steps round the ring from `from`. */
  function Ahead(from: nat, i: nat, n: nat): (r: nat)
    requires n > 0
    ensures r < n
  {
    (from + i) % n
  }

  /** How many steps round the ring from `from` to `to`; between 1 and `n`. */
  function Distance(from: nat, to: nat, n: nat): (d: nat)
    requires from < n && to < n
    ensures 1 <= d <= n
  {
    if to > from then to - from else to + n - from
  }

  lemma AheadDistance(from: nat, to: nat, n: nat)
    requires from < n && to < n
    ensures Ahead(from, Distance(from, to, n), n) == to
    ensures forall i :: 1 <= i <= n && Ahead(from, i, n) == to ==> i == Distance(from, to, n)
  {
    forall i | 1 <= i <= n ensures Ahead(from, i, n) == if from + i < n then from + i else from + i - n {
      Wrap(from, i, n);
    }
  }

  lemma Wrap(from: nat, i: nat, n: nat)
    requires from < n && i <= n
    ensures (from + i) % n == if from + i < n then from + i else from + i - n
  {
  }

  /** `next` is the first ready task after `from` round the ring, and `from` itself if there is none. */
  predicate IsNext(tasks: seq<Task>, from: nat, next: nat)
    requires from < |tasks|
  {
    && next < |tasks|
    && (forall j :: 0 <= j < |tasks| && Distance(from, j, |tasks|) < Distance(from, next, |tasks|) ==> !Ready(tasks[j]))
    && (Ready(tasks[next]) || next == from)
  }

  lemma NextUnique(tasks: seq<Task>, from: nat, a: nat, b: nat)
    requires from < |tasks| && IsNext(tasks, from, a) && IsNext(tasks, from, b)
    ensures a == b
  {
  }

  /** The choice goes upwards: no ready task is skipped between `from` and `next`, or up to the end and from 0 on. */
  lemma NextInOrder(tasks: seq<Task>, from: nat, next: nat, j: nat)
    requires from < |tasks| && IsNext(tasks, from, next) && j < |tasks|
    requires if from < next then from < j < next else j < next || from < j
    ensures !Ready(tasks[j])
  {
    assert Distance(from, j, |tasks|) < Distance(from, next, |tasks|);
  }

  ghost function Next(tasks: seq<Task>, from: nat): (r: nat)
    requires from < |tasks|
    ensures IsNext(tasks, from, r)
  {
    NextFrom(tasks, from, 1)
  }

  ghost function NextFrom(tasks: seq<Task>, from: nat, i: nat): (r: nat)
    requires from < |tasks| && 1 <= i <= |tasks| + 1
    requires forall j :: 0 <= j < |tasks| && Distance(from, j, |tasks|) < i ==> !Ready(tasks[j])
    ensures IsNext(tasks, from, r)
    decreases |tasks| + 1 - i
  {
    if i == |tasks| + 1 then from
    else
      var c := Ahead(from, i, |tasks|);
      assert Distance(from, c, |tasks|) == i by { AheadDistance(from, c, |tasks|); }
      if Ready(tasks[c]) then c
      else
        assert forall j :: 0 <= j < |tasks| && Distance(from, j, |tasks|) == i ==> j == c by {
          forall j | 0 <= j < |tasks| && Distance(from, j, |tasks|) == i
              ensures j == c { AheadDistance(from, j, |tasks|); }
        }
        NextFrom(tasks, from, i + 1)
  }

  // ---------------------------------------------------------------- steps

  ghost predicate Inv(s: State)
  {
    && 2 <= |s.tasks| && s.current < |s.tasks| && s.quantum < QUANTUM
    && (s.tasks[s.current].state == Running || s.tasks[s.current].state == Exited)
    && forall i :: 0 <= i < |s.tasks| && i != s.current ==> s.tasks[i].frame != 0 && s.tasks[i].state != Running
  }

  function Ticked(s: State): (r: State)
    requires s.current < |s.tasks|
  {
    var t := s.tasks[s.current];
    s.(tasks := s.tasks[s.current := t.(ticks := (t.ticks + 1) % WORD)], quantum := s.quantum + 1,
       pending := s.pending || s.quantum + 1 >= QUANTUM)
  }

  /** The interrupted task with its frame saved and no longer running. */
  function Parked(s: State, frame: nat): (r: seq<Task>)
    requires s.current < |s.tasks|
    ensures |r| == |s.tasks|
  {
    var t := s.tasks[s.current];
    s.tasks[s.current := t.(frame := frame, state := if t.state == Running then Runnable else t.state)]
  }

  /** What `scheduler_schedule_from_interrupt` leaves behind. */
  ghost function Scheduled(s: State, frame: nat): (r: State)
    requires s.current < |s.tasks|
  {
    if |s.tasks| < 2 || !s.pending then s
    else
      var parked := Parked(s, frame);
      var next := Next(parked, s.current);
      if next == s.current || parked[next].frame == 0 then
        s.(tasks := parked[s.current := parked[s.current].(state := Running)], pending := false, quantum := 0)
      else
        s.(tasks := parked[next := parked[next].(runs := (parked[next].runs + 1) % WORD, state := Running)],
           current := next, quantum := 0, pending := false, switches := (s.switches + 1) % WORD)
  }

  ghost function Step(s: State, e: Event): (r: State)
    requires s.current < |s.tasks|
    ensures |r.tasks| == |s.tasks| && r.current < |r.tasks|
  {
    match e
    case Timer(frame) => Scheduled(Ticked(s), frame)
    case Request => s.(pending := true)
    case Exit => s.(tasks := s.tasks[s.current := s.tasks[s.current].(state := Exited)], pending := true)
  }

  ghost function Run(s: State, events: seq<Event>): (r: State)
    requires s.current < |s.tasks|
    ensures |r.tasks| == |s.tasks| && r.current < |r.tasks|
    decreases |events|
  {
    if events == [] then s else Run(Step(s, events[0]), events[1..])
  }

  /** Interrupt frames are never null. */
  predicate Real(e: Event)
  {
    e.Timer? ==> e.frame != 0
  }

  lemma StepInv(s: State, e: Event)
    requires Inv(s) && Real(e)
    ensures Inv(Step(s, e))
  {
    hide Next, IsNext;
    if e.Timer? {
      var u := Ticked(s);
      if u.pending {
        NextReady(Parked(u, e.frame), u.current);
      }
    }
  }

  lemma InvCurrent(s: State)
    requires Inv(s)
    ensures s.current < |s.tasks|
  {
  }

  lemma NextReady(tasks: seq<Task>, from: nat)
    requires from < |tasks|
    ensures Next(tasks, from) < |tasks| && (Next(tasks, from) != from ==> Ready(tasks[Next(tasks, from)]))
  {
  }

  /** Every state of every run: frames are saved, and only the current task can be running. */
  lemma {:induction false} RunInv(s: State, events: seq<Event>)
    requires Inv(s) && forall i :: 0 <= i < |events| ==> Real(events[i])
    ensures Inv(Run(s, events))
    decreases |events|
  {
    if events != [] {
      StepInv(s, events[0]);
      RunInv(Step(s, events[0]), events[1..]);
    }
  }

  // ---------------------------------------------------------------- stopping and going on

  /** A task that is switched away from keeps the frame of the interrupt that stopped it, and waits unless it exited. */
  lemma Stopped(s: State, frame: nat)
    requires Inv(s) && frame != 0
    ensures var r, c := Step(s, Timer(frame)), s.current;
            r.current != c ==>
              && r.tasks[c].frame == frame
              && (s.tasks[c].state == Running ==> Waits(r, c))
              && (s.tasks[c].state == Exited ==> r.tasks[c].state == Exited)
  {
    hide Next, IsNext;
    NextReady(Parked(Ticked(s), frame), s.current);
  }

  lemma {:induction false} RunSnoc(s: State, events: seq<Event>, e: Event)
    requires s.current < |s.tasks|
    ensures Run(s, events + [e]) == Step(Run(s, events), e)
    decreases |events|
  {
    var all := events + [e];
    if events == [] {
      assert all[1..] == [];
    } else {
      assert all[1..] == events[1..] + [e];
      RunSnoc(Step(s, events[0]), events[1..], e);
    }
  }

  /** The current task once the first `n` events have happened. */
  ghost function Current(s: State, events: seq<Event>, n: nat): (r: nat)
    requires s.current < |s.tasks| && n <= |events|
    ensures r < |s.tasks|
  {
    Run(s, events[..n]).current
  }

  lemma RunStep(s: State, events: seq<Event>, n: nat)
    requires s.current < |s.tasks| && n < |events|
    ensures Run(s, events[..n + 1]) == Step(Run(s, events[..n]), events[n])
  {
    assert events[..n + 1] == events[..n] + [events[n]];
    RunSnoc(s, events[..n], events[n]);
  }

  /** The frame of the timer interrupt that last took the processor from `t`, among the first `n` events;
      `first` if there was none. */
  ghost function LastStop(s: State, events: seq<Event>, n: nat, t: nat, first: nat): (r: nat)
    requires s.current < |s.tasks| && n <= |events|
  {
    if n == 0 then first
    else if events[n - 1].Timer? && Current(s, events, n - 1) == t && Current(s, events, n) != t
    then events[n - 1].frame
    else LastStop(s, events, n - 1, t, first)
  }

  /** In every run the saved frame of a task that is not current is the one it was last stopped with. */
  lemma {:induction false} SavedFrame(s: State, events: seq<Event>, n: nat, t: nat)
    requires Inv(s) && n <= |events| && t < |s.tasks| && forall i :: 0 <= i < |events| ==> Real(events[i])
    requires Current(s, events, n) != t
    ensures Run(s, events[..n]).tasks[t].frame == LastStop(s, events, n, t, s.tasks[t].frame)
  {
    hide Step, Inv, Next, IsNext;
    InvCurrent(s);
    if n == 0 {
      assert events[..0] == [];
    } else {
      var before, e := Run(s, events[..n - 1]), events[n - 1];
      RunInv(s, events[..n - 1]);
      RunStep(s, events, n - 1);
      FrameStep(before, e, t);
      if before.current != t {
        SavedFrame(s, events, n - 1, t);
      }
    }
  }

  lemma FrameStep(s: State, e: Event, t: nat)
    requires Inv(s) && Real(e) && t < |s.tasks| && Step(s, e).current != t
    ensures var r := Step(s, e);
            if s.current == t then e.Timer? && r.tasks[t].frame == e.frame else r.tasks[t].frame == s.tasks[t].frame
  {
    if s.current == t && e.Timer? {
      Stopped(s, e.frame);
    } else if s.current != t {
      OthersKept(s, e, t);
    }
  }

  /** What timer interrupt `n` of a run returns to: the interrupted frame, or the one the next task was stopped with. */
  ghost function Resumes(s: State, events: seq<Event>, n: nat): (r: nat)
    requires s.current < |s.tasks| && n < |events| && events[n].Timer?
  {
    var t := Current(s, events, n + 1);
    if t == Current(s, events, n) then events[n].frame else LastStop(s, events, n, t, s.tasks[t].frame)
  }

  // ---------------------------------------------------------------- accounting

  /** The timer interrupts that found `t` on the processor. */
  ghost function TicksOf(s: State, events: seq<Event>, n: nat, t: nat): (r: nat)
    requires s.current < |s.tasks| && n <= |events|
  {
    if n == 0 then 0
    else TicksOf(s, events, n - 1, t) + if events[n - 1].Timer? && Current(s, events, n - 1) == t then 1 else 0
  }

  /** The times `t` was given the processor. */
  ghost function RunsOf(s: State, events: seq<Event>, n: nat, t: nat): (r: nat)
    requires s.current < |s.tasks| && n <= |events|
  {
    if n == 0 then 0
    else RunsOf(s, events, n - 1, t) + if Current(s, events, n - 1) != t && Current(s, events, n) == t then 1 else 0
  }

  /** The times the processor changed hands. */
  ghost function SwitchesIn(s: State, events: seq<Event>, n: nat): (r: nat)
    requires s.current < |s.tasks| && n <= |events|
  {
    if n == 0 then 0
    else SwitchesIn(s, events, n - 1) + if Current(s, events, n - 1) != Current(s, events, n) then 1 else 0
  }

  predicate Counted(s: State)
  {
    s.switches < WORD && forall i :: 0 <= i < |s.tasks| ==> s.tasks[i].ticks < WORD && s.tasks[i].runs < WORD
  }

  lemma CountStep(s: State, e: Event, t: nat)
    requires Inv(s) && Real(e) && t < |s.tasks| && Counted(s)
    ensures var r := Step(s, e);
            && Counted(r)
            && r.tasks[t].ticks == (s.tasks[t].ticks + if e.Timer? && s.current == t then 1 else 0) % WORD
            && r.tasks[t].runs == (s.tasks[t].runs + if s.current != t && r.current == t then 1 else 0) % WORD
            && r.switches == (s.switches + if r.current != s.current then 1 else 0) % WORD
  {
    hide Next, IsNext;
    if e.Timer? {
      NextReady(Parked(Ticked(s), e.frame), s.current);
    }
  }

  lemma AddWrapped(x: nat, a: nat, b: nat, mid: nat, end: nat)
    requires mid == (x + a) % WORD && end == (mid + b) % WORD
    ensures end == (x + (a + b)) % WORD
  {
  }

  /** The counters of `r` are those of `s` with the given increments, at 32 bits. */
  ghost predicate Counts(s: State, r: State, t: nat, ticks: nat, runs: nat, switches: nat)
  {
    && t < |s.tasks| == |r.tasks| && Counted(r)
    && r.tasks[t].ticks == (s.tasks[t].ticks + ticks) % WORD
    && r.tasks[t].runs == (s.tasks[t].runs + runs) % WORD
    && r.switches == (s.switches + switches) % WORD
  }

  lemma CountsStart(s: State, t: nat)
    requires Counted(s) && t < |s.tasks|
    ensures Counts(s, s, t, 0, 0, 0)
  {
  }

  lemma CountsStep(s: State, r: State, e: Event, t: nat, ticks: nat, runs: nat, switches: nat)
    requires Inv(r) && Real(e) && Counts(s, r, t, ticks, runs, switches)
    ensures var q := Step(r, e);
            Counts(s, q, t, ticks + (if e.Timer? && r.current == t then 1 else 0),
                   runs + (if r.current != t && q.current == t then 1 else 0),
                   switches + (if r.current != q.current then 1 else 0))
  {
    hide Step, Inv, Counted;
    InvCurrent(r);
    var q := Step(r, e);
    CountStep(r, e, t);
    var ticked, ran := if e.Timer? && r.current == t then 1 else 0, if r.current != t && q.current == t then 1 else 0;
    AddWrapped(s.tasks[t].ticks, ticks, ticked, r.tasks[t].ticks, q.tasks[t].ticks);
    AddWrapped(s.tasks[t].runs, runs, ran, r.tasks[t].runs, q.tasks[t].runs);
    AddWrapped(s.switches, switches, if r.current != q.current then 1 else 0, r.switches, q.switches);
  }

  /** In every run the counters count: ticks while on the processor, times dispatched, and switches. */
  lemma {:induction false} Accounting(s: State, events: seq<Event>, n: nat, t: nat)
    requires Inv(s) && n <= |events| && t < |s.tasks| && forall i :: 0 <= i < |events| ==> Real(events[i])
    requires Counted(s)
    ensures Counts(s, Run(s, events[..n]), t, TicksOf(s, events, n, t), RunsOf(s, events, n, t),
                   SwitchesIn(s, events, n))
  {
    hide Step, Inv, Counts;
    InvCurrent(s);
    if n == 0 {
      assert events[..0] == [];
      CountsStart(s, t);
    } else {
      var before, m := Run(s, events[..n - 1]), n - 1;
      RunInv(s, events[..m]);
      Accounting(s, events, m, t);
      RunStep(s, events, m);
      CountsStep(s, before, events[m], t, TicksOf(s, events, m, t), RunsOf(s, events, m, t), SwitchesIn(s, events, m));
    }
  }

  // ---------------------------------------------------------------- when a task is switched away

  /** Nobody is switched away before the twentieth tick of its quantum unless that is asked for. */
  lemma {:induction false} FullQuantum(s: State, events: seq<Event>)
    requires Inv(s) && !s.pending && s.quantum + |events| < QUANTUM
    requires forall i :: 0 <= i < |events| ==> events[i].Timer? && events[i].frame != 0
    ensures var r := Run(s, events); r.current == s.current && !r.pending && r.quantum == s.quantum + |events|
    decreases |events|
  {
    if events != [] {
      StepInv(s, events[0]);
      FullQuantum(Step(s, events[0]), events[1..]);
    }
  }

  /** Once it is pending, the next timer interrupt switches if anybody waits. */
  lemma PendingObeyed(s: State, frame: nat, t: nat)
    requires Inv(s) && frame != 0 && Waits(s, t) && (s.pending || s.quantum + 1 == QUANTUM)
    ensures var r := Step(s, Timer(frame)); r.current != s.current && !r.pending && r.quantum == 0
  {
    hide Next, IsNext;
    var parked := Parked(Ticked(s), frame);
    Decision(parked, s.current, t);
  }

  /** A request is obeyed at the next timer interrupt, and so is an exit. */
  lemma RequestObeyed(s: State, e: Event, frame: nat, t: nat)
    requires Inv(s) && frame != 0 && Waits(s, t) && !e.Timer?
    ensures Step(Step(s, e), Timer(frame)).current != s.current
  {
    StepInv(s, e);
    PendingObeyed(Step(s, e), frame, t);
  }

  // ---------------------------------------------------------------- waiting

  /** A task that is ready to run and is not the current one. */
  ghost predicate Waits(s: State, t: nat)
  {
    t < |s.tasks| && t != s.current && s.tasks[t].state == Runnable
  }

  /** Timer interrupts until `t` runs, at most. */
  ghost function Patience(s: State, t: nat): (r: int)
    requires s.current < |s.tasks| && t < |s.tasks|
  {
    QUANTUM * Distance(s.current, t, |s.tasks|) - s.quantum
  }

  lemma PatienceBound(s: State, t: nat)
    requires Inv(s) && Waits(s, t)
    ensures 1 <= Patience(s, t) <= QUANTUM * (|s.tasks| - 1)
  {
  }

  /** Moving on to a task on the way brings `t` closer. */
  lemma Closer(from: nat, next: nat, t: nat, n: nat)
    requires from < n && next < n && t < n && t != from && next != t && Distance(from, next, n) <= Distance(from, t, n)
    ensures Distance(next, t, n) + Distance(from, next, n) == Distance(from, t, n)
  {
  }

  /** A decision while `t` waits is a switch, to `t` or to a task before it in the ring. */
  lemma Decision(tasks: seq<Task>, from: nat, t: nat)
    requires from < |tasks| && t < |tasks| && t != from && Ready(tasks[t])
    ensures var next := Next(tasks, from);
            && next < |tasks| && next != from && Ready(tasks[next])
            && Distance(from, next, |tasks|) <= Distance(from, t, |tasks|)
  {
  }

  lemma TimerProgress(s: State, frame: nat, t: nat)
    requires Inv(s) && frame != 0 && Waits(s, t)
    ensures var r := Step(s, Timer(frame));
            && r.tasks[t].frame == s.tasks[t].frame
            && (r.current != t ==> Waits(r, t) && Patience(r, t) < Patience(s, t))
            && (r.current != t && r.current != s.current ==>
                  Distance(r.current, t, |s.tasks|) < Distance(s.current, t, |s.tasks|))
            && (r.current == s.current ==> r.switches == s.switches)
  {
    hide Next, IsNext;
    var u := Ticked(s);
    if u.pending {
      var parked := Parked(u, frame);
      Decision(parked, s.current, t);
      var next := Next(parked, s.current);
      if next != t {
        Closer(s.current, next, t, |s.tasks|);
      }
    }
  }

  function Timers(events: seq<Event>): (r: nat)
  {
    if events == [] then 0 else (if events[0].Timer? then 1 else 0) + Timers(events[1..])
  }

  /** How often the current task changes. */
  ghost function Switches(s: State, events: seq<Event>): (r: nat)
    requires s.current < |s.tasks|
    decreases |events|
  {
    if events == [] then 0
    else
      var r := Step(s, events[0]);
      (if r.current != s.current then 1 else 0) + Switches(r, events[1..])
  }

  /** Whatever the tasks do, a waiting task runs after at most `Patience` timer interrupts and `Distance` switches,
      and it goes on from the frame it was stopped with. */
  lemma {:induction false} BoundedWaiting(s: State, events: seq<Event>, t: nat) returns (k: nat)
    requires Inv(s) && Waits(s, t) && Timers(events) >= Patience(s, t)
    requires forall i :: 0 <= i < |events| ==> Real(events[i])
    ensures k <= |events| && Run(s, events[..k]).current == t && Run(s, events[..k]).tasks[t].frame == s.tasks[t].frame
    ensures Timers(events[..k]) <= Patience(s, t) <= QUANTUM * (|s.tasks| - 1)
    ensures Switches(s, events[..k]) <= Distance(s.current, t, |s.tasks|) <= |s.tasks| - 1
    decreases |events|
  {
    PatienceBound(s, t);
    var e := events[0];
    var r := Step(s, e);
    StepInv(s, e);
    StepProgress(s, e, t);
    if r.current == t {
      k := 1;
      assert events[..1][1..] == [];
    } else {
      var j := BoundedWaiting(r, events[1..], t);
      k := j + 1;
      assert events[..k][0] == e && events[..k][1..] == events[1..][..j];
    }
  }

  lemma StepProgress(s: State, e: Event, t: nat)
    requires Inv(s) && Real(e) && Waits(s, t)
    ensures var r := Step(s, e);
            && r.tasks[t].frame == s.tasks[t].frame
            && (r.current != t ==> Waits(r, t) && Patience(r, t) <= Patience(s, t) - if e.Timer? then 1 else 0)
            && (r.current != t ==>
                  Distance(r.current, t, |s.tasks|) + (if r.current != s.current then 1 else 0)
                  <= Distance(s.current, t, |s.tasks|))
            && (r.current == t ==> e.Timer?)
  {
    hide Distance;
    if e.Timer? {
      TimerProgress(s, e.frame, t);
    }
  }

  // ---------------------------------------------------------------- exited tasks

  /** A switch goes to a task that was waiting, never to one that has exited. */
  lemma SwitchToRunnable(s: State, e: Event)
    requires Inv(s) && Real(e)
    ensures var r := Step(s, e); r.current != s.current ==> Waits(s, r.current) && r.tasks[r.current].state == Running
  {
  }

  /** At a decision an exited task keeps the processor exactly when nobody waits; it is then marked running again. */
  lemma ExitedKeepsOn(s: State, frame: nat)
    requires Inv(s) && frame != 0 && s.tasks[s.current].state == Exited && Ticked(s).pending
    ensures var r := Step(s, Timer(frame));
            && (r.current == s.current <==> forall t :: 0 <= t < |s.tasks| ==> !Waits(s, t))
            && (r.current == s.current ==> r.tasks[s.current].state == Running)
            && (r.current != s.current ==> r.tasks[s.current].state == Exited)
  {
    hide Next, IsNext;
    var parked := Parked(Ticked(s), frame);
    NextReady(parked, s.current);
    forall t | 0 <= t < |s.tasks| && Waits(s, t) ensures Next(parked, s.current) != s.current {
      Decision(parked, s.current, t);
    }
    assert Next(parked, s.current) != s.current ==> Waits(s, Next(parked, s.current));
  }

  /** Once off the processor, an exited task never comes back. */
  lemma {:induction false} ExitedForGood(s: State, events: seq<Event>, t: nat)
    requires && Inv(s) && t < |s.tasks| && t != s.current && s.tasks[t].state == Exited
             && forall i :: 0 <= i < |events| ==> Real(events[i])
    ensures Run(s, events).current != t && Run(s, events).tasks[t] == s.tasks[t]
    decreases |events|
  {
    if events != [] {
      var e := events[0];
      StepInv(s, e);
      SwitchToRunnable(s, e);
      OthersKept(s, e, t);
      ExitedForGood(Step(s, e), events[1..], t);
    }
  }

  /** A step touches the task it stops and the task it starts. */
  lemma OthersKept(s: State, e: Event, t: nat)
    requires Inv(s) && Real(e) && t < |s.tasks| && t != s.current && t != Step(s, e).current
    ensures Step(s, e).tasks[t] == s.tasks[t]
  {
  }

  // ---------------------------------------------------------------- the code

  class TaskScheduler {
    var tasks: seq<Task>
    var current: nat
    var quantum: nat
    var switches: nat
    var pending: bool

    /** `scheduler_initialize`: the shell runs, idle and io wait. */
    constructor (idleFrame: nat, ioFrame: nat)
      requires idleFrame != 0 && ioFrame != 0
      ensures Snap() == State([Task(0, 0, 0, Running), Task(idleFrame, 0, 0, Runnable), Task(ioFrame, 0, 0, Runnable)],
                              0, 0, 0, false)
      ensures Inv(Snap()) && Counted(Snap()) && Waits(Snap(), 1) && Waits(Snap(), 2)
    {
      tasks, current, quantum, switches, pending := [], 0, 0, 0, false;
      new;
      AddTask(0, true);
      AddTask(idleFrame, false);
      AddTask(ioFrame, false);
    }

    ghost function Snap(): State
      reads this
    {
      State(tasks, current, quantum, switches, pending)
    }

    /** `scheduler_add_task`, with the frame that `create_initial_frame` built for a task that is not current. */
    method AddTask(frame: nat, running: bool)
      modifies this`tasks
      ensures var added := Task(if running then 0 else frame, 0, 0, if running then Running else Runnable);
              tasks == if |old(tasks)| >= MAX_TASKS then old(tasks) else old(tasks) + [added]
    {
      if |tasks| >= MAX_TASKS {
        return;
      }
      tasks := tasks + [Task(if running then 0 else frame, 0, 0, if running then Running else Runnable)];
    }

    /** `scheduler_pick_next` */
    method PickNext() returns (next: nat)
      requires current < |tasks|
      ensures next == Next(tasks, current)
    {
      ghost var n := |tasks|;
      for i := 1 to |tasks| + 1
        invariant forall j :: 0 <= j < |tasks| && Distance(current, j, n) < i ==> !Ready(tasks[j])
      {
        var candidate := Ahead(current, i, |tasks|);
        AheadDistance(current, candidate, n);
        if Ready(tasks[candidate]) {
          NextUnique(tasks, current, candidate, Next(tasks, current));
          return candidate;
        }
        forall j | 0 <= j < n && Distance(current, j, n) == i ensures j == candidate {
          AheadDistance(current, j, n);
        }
      }
      NextUnique(tasks, current, current, Next(tasks, current));
      return current;
    }

    /** `scheduler_on_tick` */
    method OnTick()
      requires current < |tasks| || tasks == []
      modifies this`tasks, this`quantum, this`pending
      ensures Snap() == if |old(tasks)| == 0 then old(Snap()) else Ticked(old(Snap()))
    {
      if |tasks| == 0 {
        return;
      }
      tasks := tasks[current := tasks[current].(ticks := (tasks[current].ticks + 1) % WORD)];
      quantum := quantum + 1;
      if quantum >= QUANTUM {
        pending := true;
      }
    }

    /** `scheduler_request_reschedule` */
    method RequestReschedule()
      requires current < |tasks|
      modifies this`pending
      ensures Snap() == Step(old(Snap()), Request)
    {
      pending := true;
    }

    /** `task_exit_trap`, up to the point where it waits to be switched away. */
    method ExitTrap()
      requires current < |tasks|
      modifies this`tasks, this`pending
      ensures Snap() == Step(old(Snap()), Exit)
    {
      tasks := tasks[current := tasks[current].(state := Exited)];
      RequestReschedule();
    }

    /** `scheduler_schedule_from_interrupt`: the frame that the interrupt returns to. */
    method ScheduleFromInterrupt(frame: nat) returns (resume: nat)
      requires current < |tasks|
      modifies this
      ensures Snap() == Scheduled(old(Snap()), frame)
      ensures resume == if current == old(current) then frame else old(tasks)[current].frame
      ensures current != old(current) ==> tasks[old(current)].frame == frame
    {
      hide Next, IsNext;
      if |tasks| < 2 || !pending {
        return frame;
      }
      tasks := tasks[current := tasks[current].(frame := frame)];
      if tasks[current].state == Running {
        tasks := tasks[current := tasks[current].(state := Runnable)];
      }
      assert tasks == Parked(old(Snap()), frame);
      var previous := current;
      var next := PickNext();
      NextReady(tasks, current);
      if next == previous || tasks[next].frame == 0 {
        tasks := tasks[previous := tasks[previous].(state := Running)];
        pending := false;
        quantum := 0;
        return frame;
      }
      current := next;
      quantum := 0;
      pending := false;
      switches := (switches + 1) % WORD;
      tasks := tasks[next := tasks[next].(runs := (tasks[next].runs + 1) % WORD)];
      tasks := tasks[next := tasks[next].(state := Running)];
      return tasks[next].frame;
    }

    /** Interrupt 32 of `interrupt_dispatch`, with `timer_handle_interrupt`. */
    method TimerInterrupt(frame: nat) returns (resume: nat)
      requires Inv(Snap()) && frame != 0
      modifies this
      ensures Snap() == Step(old(Snap()), Timer(frame)) && Inv(Snap())
      ensures resume != 0 && resume == if current == old(current) then frame else old(tasks)[current].frame
    {
      hide Next, IsNext;
      StepInv(Snap(), Timer(frame));
      SwitchToRunnable(Snap(), Timer(frame));
      OnTick();
      resume := ScheduleFromInterrupt(frame);
    }

    /** Any run of events, through the code, with the frame each interrupt returns to; 0 stands for no interrupt. */
    method Drive(events: seq<Event>) returns (resumes: seq<nat>)
      requires Inv(Snap()) && forall i :: 0 <= i < |events| ==> Real(events[i])
      modifies this
      ensures Snap() == Run(old(Snap()), events) && Inv(Snap()) && |resumes| == |events|
      ensures forall i :: 0 <= i < |events| && events[i].Timer? ==> resumes[i] == Resumes(old(Snap()), events, i)
    {
      hide Next, IsNext, Step, Inv;
      ghost var first := Snap();
      resumes := [];
      InvCurrent(first);
      assert events[..0] == [];
      for n := 0 to |events|
        invariant Inv(Snap()) && Snap() == Run(first, events[..n]) && |resumes| == n
        invariant forall i :: 0 <= i < n && events[i].Timer? ==> resumes[i] == Resumes(first, events, i)
      {
        RunStep(first, events, n);
        StepInv(Snap(), events[n]);
        InvCurrent(Snap());
        var resume := 0;
        match events[n] {
          case Timer(frame) =>
            resume := TimerInterrupt(frame);
            if current != Current(first, events, n) {
              SavedFrame(first, events, n, current);
            }
          case Request =>
            RequestReschedule();
          case Exit =>
            ExitTrap();
        }
        resumes := resumes + [resume];
      }
      assert events[..|events|] == events;
    }
  }
}
