/**
  The parallel linking loop as a state machine. Each thread works through a stack of tasks;
  a step of one thread is a single access to the shared matrices, so that another thread may
  run between the test of a strong pixel and the assignment that marks it, and between the
  mark and the clearing of the pixel.

  Every step keeps an invariant and decreases a measure, so every schedule ends, and ends
  with the image that one thread computes.
*/
module CannyInterleaving {
  import opened Bytes
  import opened Canny

  datatype Pixel = Pixel(row: int, col: int)

  /** The suppressed image: all pixels of the grid, and the thresholds. */
  datatype Input = Input(rows: nat, cols: nat, pixels: map<Pixel, byte>, low: real, high: real) {
    predicate Inside(p: Pixel) {
      0 <= p.row < rows && 0 <= p.col < cols
    }

    ghost predicate Valid() {
      forall p: Pixel :: p in pixels <==> Inside(p)
    }

    /** What nonMaximumSuppression leaves at the border. */
    predicate ZeroBorder() {
      forall p <- pixels :: (p.row == 0 || p.col == 0 || p.row == rows - 1 || p.col == cols - 1) ==> pixels[p] == 0
    }

    predicate Weak(p: Pixel) {
      p in pixels && pixels[p] as real >= low
    }

    predicate Strong(p: Pixel) {
      p in pixels && pixels[p] as real >= high
    }

    function WeakPixels(): set<Pixel> {
      set p | p in pixels && Weak(p)
    }
  }

  datatype Task =
    /** One iteration of the parallel loop. */
    | Iteration(pixel: Pixel)
    /** A call of checkContours that has yet to test whether the pixel is strong. */
    | Check(pixel: Pixel, prev: Pixel)
    /** The pixel was not strong; it is about to be marked if weak. */
    | Mark(pixel: Pixel, prev: Pixel)
    /** The pixel is not weak; it is about to be cleared. */
    | Clear(pixel: Pixel)

  /** What the threads share, and the tasks of each thread, the next one first. */
  datatype State = State(strong: set<Pixel>, image: map<Pixel, byte>, stacks: seq<seq<Task>>)

  // ---- Steps ----

  function SideCall(row: int, col: int, p: Pixel, prev: Pixel): seq<Task> {
    if Side(row, col, p.row, p.col, prev.row, prev.col) then [Check(Pixel(row, col), p)] else []
  }

  /** The recursive calls for a marked pixel; the guard lets only the diagonals through. */
  function Calls(p: Pixel, prev: Pixel): seq<Task> {
    SideCall(p.row - 1, p.col - 1, p, prev) + SideCall(p.row - 1, p.col + 1, p, prev)
    + SideCall(p.row + 1, p.col - 1, p, prev) + SideCall(p.row + 1, p.col + 1, p, prev)
  }

  /** These are the neighbours that the two nested loops over rows and columns let through. */
  lemma CallsAreSides(p: Pixel, prev: Pixel, row: int, col: int)
    ensures Check(Pixel(row, col), p) in Calls(p, prev) <==>
      p.row - 1 <= row <= p.row + 1 && p.col - 1 <= col <= p.col + 1
      && Side(row, col, p.row, p.col, prev.row, prev.col)
  {
    var task := Check(Pixel(row, col), p);
    assert task in Calls(p, prev) <==>
      task in SideCall(p.row - 1, p.col - 1, p, prev) || task in SideCall(p.row - 1, p.col + 1, p, prev)
      || task in SideCall(p.row + 1, p.col - 1, p, prev) || task in SideCall(p.row + 1, p.col + 1, p, prev);
  }

  /** What takes the place of a task when its step is done. */
  function Rest(input: Input, strong: set<Pixel>, task: Task): seq<Task> {
    match task
    case Iteration(p) => if p in strong then [] else [Check(p, p)]
    case Check(p, prev) => if p in strong then [] else [Mark(p, prev)]
    case Mark(p, prev) => if input.Weak(p) then Calls(p, prev) else [Clear(p)]
    case Clear(_) => []
  }

  function StrongAfter(input: Input, strong: set<Pixel>, task: Task): set<Pixel> {
    match task
    case Mark(p, _) => if input.Weak(p) then strong + {p} else strong - {p}
    case _ => strong
  }

  function ImageAfter(image: map<Pixel, byte>, task: Task): map<Pixel, byte> {
    match task
    case Clear(p) => image[p := 0]
    case _ => image
  }

  predicate Enabled(s: State, t: nat) {
    t < |s.stacks| && s.stacks[t] != []
  }

  /** The state after the next step of thread t. */
  function Next(input: Input, s: State, t: nat): State
    requires Enabled(s, t)
  {
    var task := s.stacks[t][0];
    State(StrongAfter(input, s.strong, task), ImageAfter(s.image, task),
      s.stacks[t := Rest(input, s.strong, task) + s.stacks[t][1..]])
  }

  /** The iterations are distributed over the threads in any way. */
  ghost predicate Init(input: Input, s: State) {
    && s.image == input.pixels
    && (forall p: Pixel :: p in s.strong <==> input.Strong(p))
    && (forall t, k | 0 <= t < |s.stacks| && 0 <= k < |s.stacks[t]| ::
         s.stacks[t][k].Iteration? && input.Inside(s.stacks[t][k].pixel))
    && (forall p <- input.pixels :: Pending(s, p))
  }

  // ---- Safety ----

  predicate HasTask(stack: seq<Task>, p: Pixel) {
    exists k | 0 <= k < |stack| :: stack[k].pixel == p
  }

  predicate Pending(s: State, p: Pixel) {
    exists t | 0 <= t < |s.stacks| :: HasTask(s.stacks[t], p)
  }

  predicate Kept(input: Input, p: Pixel)
    requires p in input.pixels
  {
    Keeps(input.pixels[p], input.low, input.high)
  }

  /** A task works inside the grid, and on a pixel it may change. */
  predicate TaskOk(input: Input, task: Task) {
    && task.pixel in input.pixels
    && (task.Mark? ==> !input.Strong(task.pixel))
    && (task.Clear? ==> !Kept(input, task.pixel))
  }

  predicate StackOk(input: Input, stack: seq<Task>) {
    forall k | 0 <= k < |stack| :: TaskOk(input, stack[k])
  }

  predicate PixelOk(input: Input, s: State, p: Pixel)
    requires p in input.pixels && p in s.image
  {
    && (p in s.strong ==> Kept(input, p)) && (input.Strong(p) ==> p in s.strong)
    && (s.image[p] == input.pixels[p] || (s.image[p] == 0 && !Kept(input, p)))
    && (!Kept(input, p) ==> s.image[p] == 0 || Pending(s, p))
  }

  ghost predicate Inv(input: Input, s: State) {
    && s.image.Keys == input.pixels.Keys
    && (forall p <- s.strong :: p in input.pixels)
    && (forall t | 0 <= t < |s.stacks| :: StackOk(input, s.stacks[t]))
    && (forall p <- input.pixels :: PixelOk(input, s, p))
  }

  lemma InitInv(input: Input, s: State)
    requires input.Valid() && Init(input, s)
    ensures Inv(input, s)
  {
  }

  /** Only pixels off the border spawn calls, so all calls stay inside. */
  lemma CallsInside(input: Input, p: Pixel, prev: Pixel)
    requires input.Valid() && input.ZeroBorder() && SafeThresholds(input.low, input.high)
    requires input.Weak(p) && !input.Strong(p)
    ensures StackOk(input, Calls(p, prev))
  {
    assert 0 < p.row < input.rows - 1 && 0 < p.col < input.cols - 1;
    forall k | 0 <= k < |Calls(p, prev)| ensures TaskOk(input, Calls(p, prev)[k]) {
      var q := Calls(p, prev)[k].pixel;
      assert input.Inside(q);
    }
  }

  lemma StepStacks(input: Input, s: State, t: nat)
    requires input.Valid() && input.ZeroBorder() && SafeThresholds(input.low, input.high)
    requires Inv(input, s) && Enabled(s, t)
    ensures forall u | 0 <= u < |s.stacks| :: StackOk(input, Next(input, s, t).stacks[u])
  {
    var task, rest := s.stacks[t][0], s.stacks[t][1..];
    assert TaskOk(input, task) && input.Valid();
    assert StackOk(input, rest);
    assert StackOk(input, Rest(input, s.strong, task)) by {
      assert PixelOk(input, s, task.pixel);
      if task.Mark? && input.Weak(task.pixel) {
        CallsInside(input, task.pixel, task.prev);
      }
    }
    var stack := Rest(input, s.strong, task) + rest;
    assert StackOk(input, stack);
  }

  /** A pixel that is to be cleared stays pending until it is. */
  lemma StepPending(input: Input, s: State, t: nat, p: Pixel)
    requires Inv(input, s) && Enabled(s, t) && p in input.pixels && !Kept(input, p) && Pending(s, p)
    ensures Next(input, s, t).image[p] == 0 || Pending(Next(input, s, t), p)
  {
    var s' := Next(input, s, t);
    var task := s.stacks[t][0];
    var u :| 0 <= u < |s.stacks| && HasTask(s.stacks[u], p);
    if u != t {
      assert HasTask(s'.stacks[u], p);
    } else {
      var k :| 0 <= k < |s.stacks[t]| && s.stacks[t][k].pixel == p;
      var placed := Rest(input, s.strong, task);
      if k > 0 {
        assert s'.stacks[t][|placed| + k - 1] == s.stacks[t][k];
        assert HasTask(s'.stacks[t], p);
      } else if !task.Clear? {
        assert PixelOk(input, s, p);
        assert s'.stacks[t][0].pixel == p;
        assert HasTask(s'.stacks[t], p);
      }
    }
  }

  lemma StepInv(input: Input, s: State, t: nat)
    requires input.Valid() && input.ZeroBorder() && SafeThresholds(input.low, input.high)
    requires Inv(input, s) && Enabled(s, t)
    ensures Inv(input, Next(input, s, t))
  {
    var s' := Next(input, s, t);
    var task := s.stacks[t][0];
    StepStacks(input, s, t);
    assert TaskOk(input, task);
    forall p | p in input.pixels ensures PixelOk(input, s', p) {
      assert PixelOk(input, s, p);
      if !Kept(input, p) && Pending(s, p) {
        StepPending(input, s, t, p);
      }
    }
  }

  /** The image a single thread leaves: the pixels that reach a threshold, and zeros. */
  predicate Linked(input: Input, image: map<Pixel, byte>) {
    image.Keys == input.pixels.Keys && forall p <- input.pixels :: var v := input.pixels[p];
      image[p] == if v as real >= input.low || v as real >= input.high then v else 0
  }

  /** When no thread has anything left to do, the image is the one a single thread leaves. */
  lemma FinalImage(input: Input, s: State)
    requires Inv(input, s) && forall t | 0 <= t < |s.stacks| :: s.stacks[t] == []
    ensures Linked(input, s.image)
  {
    forall p | p in input.pixels ensures s.image[p] == if Kept(input, p) then input.pixels[p] else 0 {
      assert PixelOk(input, s, p);
    }
  }

  // ---- Every schedule ends ----

  /** How many marks of a stack are late: another call has marked the weak pixel since the test. */
  function Late(input: Input, strong: set<Pixel>, stack: seq<Task>): nat {
    if stack == [] then 0
    else (if stack[0].Mark? && input.Weak(stack[0].pixel) && stack[0].pixel in strong then 1 else 0)
         + Late(input, strong, stack[1..])
  }

  /** How many steps the tasks of a stack take if none of them spawns calls. */
  function Work(stack: seq<Task>): nat {
    if stack == [] then 0
    else
      (match stack[0] case Iteration(_) => 4 case Check(_, _) => 3 case Mark(_, _) => 2 case Clear(_) => 1)
      + Work(stack[1..])
  }

  ghost function Unmarked(input: Input, s: State): nat {
    |input.WeakPixels() - s.strong|
  }

  function LateMarks(input: Input, strong: set<Pixel>, stacks: seq<seq<Task>>): nat {
    if stacks == [] then 0 else Late(input, strong, stacks[0]) + LateMarks(input, strong, stacks[1..])
  }

  function AllWork(stacks: seq<seq<Task>>): nat {
    if stacks == [] then 0 else Work(stacks[0]) + AllWork(stacks[1..])
  }

  lemma {:induction false} WorkOfUpdate(stacks: seq<seq<Task>>, t: nat, stack: seq<Task>)
    requires t < |stacks|
    ensures AllWork(stacks[t := stack]) + Work(stacks[t]) == AllWork(stacks) + Work(stack)
  {
    hide Work;
    assert stacks[t := stack][1..] == if t == 0 then stacks[1..] else stacks[1..][t - 1 := stack];
    if t > 0 {
      WorkOfUpdate(stacks[1..], t - 1, stack);
    }
  }

  lemma {:induction false} LateOfUpdate(
      input: Input, strong: set<Pixel>, stacks: seq<seq<Task>>, t: nat, stack: seq<Task>)
    requires t < |stacks|
    ensures LateMarks(input, strong, stacks[t := stack]) + Late(input, strong, stacks[t])
         == LateMarks(input, strong, stacks) + Late(input, strong, stack)
  {
    hide Late;
    assert stacks[t := stack][1..] == if t == 0 then stacks[1..] else stacks[1..][t - 1 := stack];
    if t > 0 {
      LateOfUpdate(input, strong, stacks[1..], t - 1, stack);
    }
  }

  lemma {:induction false} LateOfChecks(input: Input, strong: set<Pixel>, placed: seq<Task>, rest: seq<Task>)
    requires forall k | 0 <= k < |placed| :: !placed[k].Mark?
    ensures Late(input, strong, placed + rest) == Late(input, strong, rest)
  {
    if placed == [] {
      assert placed + rest == rest;
    } else {
      assert (placed + rest)[1..] == placed[1..] + rest;
      LateOfChecks(input, strong, placed[1..], rest);
    }
  }

  /**
    Each step lowers the first of these that it changes: the number of weak pixels still
    unmarked, the number of late marks, the work left.
  */
  lemma StepDecreases(input: Input, s: State, t: nat)
    requires Inv(input, s) && Enabled(s, t)
    ensures var s' := Next(input, s, t);
      || Unmarked(input, s') < Unmarked(input, s)
      || (Unmarked(input, s') == Unmarked(input, s)
          && (LateMarks(input, s'.strong, s'.stacks) < LateMarks(input, s.strong, s.stacks)
              || (LateMarks(input, s'.strong, s'.stacks) == LateMarks(input, s.strong, s.stacks)
                  && AllWork(s'.stacks) < AllWork(s.stacks))))
  {
    var s', task := Next(input, s, t), s.stacks[t][0];
    var placed, rest := Rest(input, s.strong, task), s.stacks[t][1..];
    assert TaskOk(input, task);
    if task.Mark? && input.Weak(task.pixel) && task.pixel !in s.strong {
      MarkLowersUnmarked(input, s, s', task.pixel);
    } else {
      assert input.WeakPixels() - s'.strong == input.WeakPixels() - s.strong;
      assert s'.strong == s.strong by {
        MarkKeepsStrong(input, s, task);
      }
      LateOfUpdate(input, s.strong, s.stacks, t, placed + rest);
      WorkOfUpdate(s.stacks, t, placed + rest);
      StackMeasures(input, s.strong, s.stacks[t]);
    }
  }

  lemma MarkLowersUnmarked(input: Input, s: State, s': State, p: Pixel)
    requires input.Weak(p) && p !in s.strong && s'.strong == s.strong + {p}
    ensures Unmarked(input, s') < Unmarked(input, s)
  {
    var before, after := input.WeakPixels() - s.strong, input.WeakPixels() - s'.strong;
    assert p in before && after == before - {p};
  }

  lemma MarkKeepsStrong(input: Input, s: State, task: Task)
    requires Inv(input, s) && TaskOk(input, task)
    requires !(task.Mark? && input.Weak(task.pixel) && task.pixel !in s.strong)
    ensures StrongAfter(input, s.strong, task) == s.strong
  {
    assert PixelOk(input, s, task.pixel);
  }

  /** A step that marks no new pixel does a late mark, or leaves less work. */
  lemma StackMeasures(input: Input, strong: set<Pixel>, stack: seq<Task>)
    requires stack != []
    requires !(stack[0].Mark? && input.Weak(stack[0].pixel) && stack[0].pixel !in strong)
    ensures var stack' := Rest(input, strong, stack[0]) + stack[1..];
      || Late(input, strong, stack') < Late(input, strong, stack)
      || (Late(input, strong, stack') == Late(input, strong, stack) && Work(stack') < Work(stack))
  {
    var task, rest := stack[0], stack[1..];
    var placed := Rest(input, strong, task);
    if task.Mark? && input.Weak(task.pixel) {
      LateOfChecks(input, strong, placed, rest);
    } else if placed == [] {
      assert placed + rest == rest;
    } else {
      assert (placed + rest)[0] == placed[0] && (placed + rest)[1..] == rest;
    }
  }

  // ---- Whole runs ----

  /** A run: the states one after the other, with the thread that takes each step. */
  ghost predicate Run(input: Input, states: seq<State>, threads: seq<nat>) {
    && |states| == |threads| + 1 && Init(input, states[0])
    && forall n | 0 <= n < |threads| ::
         Enabled(states[n], threads[n]) && states[n + 1] == Next(input, states[n], threads[n])
  }

  predicate Done(s: State) {
    forall t | 0 <= t < |s.stacks| :: s.stacks[t] == []
  }

  lemma {:induction false} RunInv(input: Input, states: seq<State>, threads: seq<nat>, n: nat)
    requires input.Valid() && input.ZeroBorder() && SafeThresholds(input.low, input.high)
    requires Run(input, states, threads) && n < |states|
    ensures Inv(input, states[n])
  {
    if n == 0 {
      InitInv(input, states[0]);
    } else {
      RunInv(input, states, threads, n - 1);
      StepInv(input, states[n - 1], threads[n - 1]);
    }
  }

  /** No run accesses a pixel outside the grid. */
  lemma RunStaysInside(input: Input, states: seq<State>, threads: seq<nat>, n: nat, t: nat)
    requires input.Valid() && input.ZeroBorder() && SafeThresholds(input.low, input.high)
    requires Run(input, states, threads) && n < |states| && Enabled(states[n], t)
    ensures input.Inside(states[n].stacks[t][0].pixel)
  {
    RunInv(input, states, threads, n);
    assert TaskOk(input, states[n].stacks[t][0]);
  }

  /** Every interleaving that has come to its end has computed the sequential image. */
  lemma RunComputesLinked(input: Input, states: seq<State>, threads: seq<nat>)
    requires input.Valid() && input.ZeroBorder() && SafeThresholds(input.low, input.high)
    requires Run(input, states, threads) && Done(states[|threads|])
    ensures Linked(input, states[|threads|].image)
  {
    RunInv(input, states, threads, |threads|);
    FinalImage(input, states[|threads|]);
  }

  /** Any schedule, chosen step by step, comes to its end. */
  method Schedule(input: Input, start: State) returns (end: State)
    requires input.Valid() && input.ZeroBorder() && SafeThresholds(input.low, input.high)
    requires Init(input, start)
    ensures Done(end)
    ensures Linked(input, end.image)
  {
    end := start;
    InitInv(input, start);
    hide Inv, Next, Unmarked, LateMarks, AllWork, Input.Valid, Input.ZeroBorder;
    while !Done(end)
      invariant Inv(input, end)
      decreases Unmarked(input, end), LateMarks(input, end.strong, end.stacks), AllWork(end.stacks)
    {
      var t :| 0 <= t < |end.stacks| && end.stacks[t] != [];
      StepInv(input, end, t);
      StepDecreases(input, end, t);
      end := Next(input, end, t);
    }
    FinalImage(input, end);
  }

  // ---- The thresholds ----

  /**
    With other thresholds the guard against leaving the image fails: whatever the image, a
    thread that starts with the corner pixel steps outside after three steps.
  */
  lemma UnsafeThresholdsLeaveTheGrid(input: Input, s: State, t: nat)
    requires input.Valid() && input.ZeroBorder() && !SafeThresholds(input.low, input.high)
    requires Init(input, s) && Enabled(s, t) && s.stacks[t][0] == Iteration(Pixel(0, 0))
    ensures var s1 := Next(input, s, t);
      Enabled(s1, t)
      && var s2 := Next(input, s1, t);
      Enabled(s2, t)
      && var s3 := Next(input, s2, t);
      Enabled(s3, t) && !input.Inside(s3.stacks[t][0].pixel)
  {
    var corner := Pixel(0, 0);
    assert input.Inside(corner) && corner in input.pixels && input.pixels[corner] == 0;
    assert input.Weak(corner) && !input.Strong(corner);
    var rest := s.stacks[t][1..];
    var s1 := Next(input, s, t);
    assert s1.stacks[t] == [Check(corner, corner)] + rest;
    var s2 := Next(input, s1, t);
    assert s2.stacks[t] == [Mark(corner, corner)] + rest;
    var s3 := Next(input, s2, t);
    assert s3.stacks[t][0] == Check(Pixel(-1, -1), corner);
  }

  /** All tasks are on pixels of the grid. */
  ghost predicate PixelsInside(input: Input, s: State) {
    forall t, k | 0 <= t < |s.stacks| && 0 <= k < |s.stacks[t]| :: input.Inside(s.stacks[t][k].pixel)
  }

  /** All calls come from pixels of the grid. */
  ghost predicate CallersInside(input: Input, s: State) {
    forall t, k | 0 <= t < |s.stacks| && 0 <= k < |s.stacks[t]| ::
      match s.stacks[t][k]
      case Check(_, prev) => input.Inside(prev)
      case Mark(_, prev) => input.Inside(prev)
      case _ => true
  }

  predicate IsCorner(task: Task) {
    task.pixel == Pixel(0, 0) && !task.Clear?
  }

  /** The corner is still to be marked. */
  ghost predicate CornerWaits(input: Input, s: State) {
    && Pixel(0, 0) !in s.strong && CallersInside(input, s)
    && exists t, k | 0 <= t < |s.stacks| && 0 <= k < |s.stacks[t]| :: IsCorner(s.stacks[t][k])
  }

  lemma CornerWaitsAtFirst(input: Input, s: State)
    requires input.Valid() && input.ZeroBorder() && !SafeThresholds(input.low, input.high)
    requires Init(input, s) && input.Inside(Pixel(0, 0))
    ensures CornerWaits(input, s)
  {
    var corner := Pixel(0, 0);
    assert corner in input.pixels && input.pixels[corner] == 0;
    assert Pending(s, corner);
    var t :| 0 <= t < |s.stacks| && HasTask(s.stacks[t], corner);
    var k :| 0 <= k < |s.stacks[t]| && s.stacks[t][k].pixel == corner;
    assert IsCorner(s.stacks[t][k]);
  }

  /** Marking the corner calls for a pixel outside, whatever inner pixel the call came from. */
  lemma MarkedCornerLeaves(input: Input, s: State, t: nat)
    requires Enabled(s, t) && CallersInside(input, s) && input.Weak(Pixel(0, 0))
    requires s.stacks[t][0].Mark? && s.stacks[t][0].pixel == Pixel(0, 0)
    ensures !PixelsInside(input, Next(input, s, t))
  {
    var s', prev := Next(input, s, t), s.stacks[t][0].prev;
    assert SideCall(-1, -1, Pixel(0, 0), prev) == [Check(Pixel(-1, -1), Pixel(0, 0))];
    assert s'.stacks[t][0] == Check(Pixel(-1, -1), Pixel(0, 0));
  }

  /** As long as nothing is outside, the corner has not been marked. */
  lemma CornerWaitsOn(input: Input, s: State, t: nat)
    requires input.Valid() && input.ZeroBorder() && !SafeThresholds(input.low, input.high)
    requires input.Inside(Pixel(0, 0)) && Enabled(s, t) && CornerWaits(input, s)
    requires PixelsInside(input, s) && PixelsInside(input, Next(input, s, t))
    ensures CornerWaits(input, Next(input, s, t))
  {
    var s', task, rest := Next(input, s, t), s.stacks[t][0], s.stacks[t][1..];
    var placed := Rest(input, s.strong, task);
    assert input.Weak(Pixel(0, 0)) by {
      assert Pixel(0, 0) in input.pixels && input.pixels[Pixel(0, 0)] == 0;
    }
    if task.Mark? && task.pixel == Pixel(0, 0) {
      MarkedCornerLeaves(input, s, t);
      assert false;
    }
    CornerStillThere(input, s, t);
    forall u, k | 0 <= u < |s'.stacks| && 0 <= k < |s'.stacks[u]|
      ensures match s'.stacks[u][k]
        case Check(_, prev) => input.Inside(prev)
        case Mark(_, prev) => input.Inside(prev)
        case _ => true
    {
      if u == t && k >= |placed| {
        assert s'.stacks[t][k] == s.stacks[t][k - |placed| + 1];
      } else if u == t {
        assert s'.stacks[t][k] == placed[k];
      }
    }
  }

  lemma CornerStillThere(input: Input, s: State, t: nat)
    requires Enabled(s, t) && Pixel(0, 0) !in s.strong
    requires !(s.stacks[t][0].Mark? && s.stacks[t][0].pixel == Pixel(0, 0))
    requires exists u, k | 0 <= u < |s.stacks| && 0 <= k < |s.stacks[u]| :: IsCorner(s.stacks[u][k])
    ensures var s' := Next(input, s, t);
      exists u, k | 0 <= u < |s'.stacks| && 0 <= k < |s'.stacks[u]| :: IsCorner(s'.stacks[u][k])
  {
    var s', placed := Next(input, s, t), Rest(input, s.strong, s.stacks[t][0]);
    var u, k :| 0 <= u < |s.stacks| && 0 <= k < |s.stacks[u]| && IsCorner(s.stacks[u][k]);
    if u != t {
      assert s'.stacks[u][k] == s.stacks[u][k];
    } else if k > 0 {
      assert s'.stacks[t][|placed| + k - 1] == s.stacks[t][k];
    } else {
      assert s'.stacks[t][0] == placed[0] && IsCorner(placed[0]);
    }
  }

  lemma {:induction false} CornerWaitsInRun(input: Input, states: seq<State>, threads: seq<nat>, n: nat)
    requires input.Valid() && input.ZeroBorder() && !SafeThresholds(input.low, input.high)
    requires input.Inside(Pixel(0, 0)) && Run(input, states, threads) && n < |states|
    requires forall m | 0 <= m <= n :: PixelsInside(input, states[m])
    ensures CornerWaits(input, states[n])
  {
    hide Next, PixelsInside, CornerWaits, SafeThresholds, Init;
    if n == 0 {
      CornerWaitsAtFirst(input, states[0]);
    } else {
      CornerWaitsInRun(input, states, threads, n - 1);
      assert Enabled(states[n - 1], threads[n - 1]) && PixelsInside(input, states[n - 1]);
      assert states[n] == Next(input, states[n - 1], threads[n - 1]) && PixelsInside(input, states[n]);
      CornerWaitsOn(input, states[n - 1], threads[n - 1]);
    }
  }

  /**
    On any image with a zero border, however its pixels are distributed over threads and
    whatever the schedule: a run that comes to its end has stayed inside the grid if and only
    if the thresholds are safe.
  */
  lemma InsideIffSafe(input: Input, states: seq<State>, threads: seq<nat>)
    requires input.Valid() && input.ZeroBorder() && input.rows > 0 && input.cols > 0
    requires Run(input, states, threads) && Done(states[|threads|])
    ensures (forall n | 0 <= n < |states| :: PixelsInside(input, states[n])) <==> SafeThresholds(input.low, input.high)
  {
    if SafeThresholds(input.low, input.high) {
      forall n | 0 <= n < |states| ensures PixelsInside(input, states[n]) {
        RunInv(input, states, threads, n);
        InvInside(input, states[n]);
      }
    } else if forall n | 0 <= n < |states| :: PixelsInside(input, states[n]) {
      CornerWaitsInRun(input, states, threads, |threads|);
      assert false;
    }
  }

  lemma InvInside(input: Input, s: State)
    requires input.Valid() && Inv(input, s)
    ensures PixelsInside(input, s)
  {
    forall t, k | 0 <= t < |s.stacks| && 0 <= k < |s.stacks[t]| ensures input.Inside(s.stacks[t][k].pixel) {
      assert TaskOk(input, s.stacks[t][k]);
    }
  }
}
