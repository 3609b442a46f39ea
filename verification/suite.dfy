/**
 A test of a suite run by parallel clones. Each clone works through its rendered case list,
 descending into included files; the clones interleave step by step, share a success
 counter, and are joined before it is read.
 */
module Suite {
  import opened Wrappers

  /** An included or top-level file after loading and rendering. */
  datatype File = Missing | Unparsable | Cases(list: seq<Script>)

  /** A literal case, or a reference `n@file` to another file. */
  datatype Script =
    | Literal(id: nat, continueOnFailure: bool)
    | Include(runs: nat, file: File)

  /** A case list in progress; `loader` is the ParallelRunIdx its templates see. */
  datatype Frame = Frame(cases: seq<Script>, next: nat, runIdx: nat, loader: int)

  datatype Clone = Running(stack: seq<Frame>) | Succeeded | Failed

  /** A literal case that was run, at some include depth. */
  datatype Entry = Entry(clone: nat, loader: int, depth: nat, index: nat, test: Script, success: bool)

  datatype State = State(clones: seq<Clone>, successCount: nat, log: seq<Entry>)

  const UINT32: nat := 0x1_0000_0000

  function BuildLoader(rootLoader: int, parallelRunIdx: int): int {
    if rootLoader < 0 then parallelRunIdx else rootLoader
  }

  // ---------- the steps ----------

  function Start(file: File, runIdx: nat, rootLoader: int): Clone {
    match file
    case Cases(list) => Running([Frame(list, 0, runIdx, BuildLoader(rootLoader, runIdx))])
    case _ => Failed
  }

  function Init(files: seq<File>, rootLoader: int): State {
    State(seq(|files|, i requires 0 <= i < |files| => Start(files[i], i, rootLoader)), 0, [])
  }

  predicate Passes(test: Script, success: bool) {
    success || (test.Literal? && test.continueOnFailure)
  }

  /** The next step of a running clone, given whether a literal case run by it succeeds. */
  function CloneStep(i: nat, stack: seq<Frame>, success: bool): (Clone, Option<Entry>)
    requires stack != []
  {
    FrameStep(i, stack[..|stack| - 1], stack[|stack| - 1], success)
  }

  function FrameStep(i: nat, below: seq<Frame>, top: Frame, success: bool): (Clone, Option<Entry>) {
    if top.next >= |top.cases| then
      (if below == [] then Succeeded else Running(below), None)
    else
      var moved := below + [top.(next := top.next + 1)];
      match top.cases[top.next]
      case Literal(_, _) =>
        var test := top.cases[top.next];
        (if Passes(test, success) then Running(moved) else Failed,
         Some(Entry(i, top.loader, |below|, top.runIdx * |top.cases| + top.next, test, success)))
      case Include(runs, file) =>
        if file.Missing? || runs > 1 then (Failed, None)
        else if runs == 0 then (Running(moved), None)
        else
          match file
          case Cases(list) => (Running(moved + [Frame(list, 0, 0, BuildLoader(top.loader, 0))]), None)
          case _ => (Failed, None)
  }

  /** Clone i takes a step; finishing adds to the 32-bit counter. */
  function Step(s: State, i: nat, success: bool): State {
    if i < |s.clones| && s.clones[i].Running? && s.clones[i].stack != [] then
      var (clone, entry) := CloneStep(i, s.clones[i].stack, success);
      State(
        s.clones[i := clone],
        if clone.Succeeded? then (s.successCount + 1) % UINT32 else s.successCount,
        if entry.Some? then s.log + [entry.value] else s.log)
    else s
  }

  /** Which clone steps next, and whether the case it may run succeeds. */
  datatype Move = Move(clone: nat, success: bool)

  function Run(start: State, moves: seq<Move>): State {
    if moves == [] then start
    else
      var last := moves[|moves| - 1];
      Step(Run(start, moves[..|moves| - 1]), last.clone, last.success)
  }

  /** The wait group is released when every clone is done. */
  predicate Joined(s: State) {
    forall i :: 0 <= i < |s.clones| ==> !s.clones[i].Running?
  }

  predicate Verdict(s: State) {
    s.successCount == |s.clones| % UINT32
  }

  // ---------- the whole case list ----------

  /** The literal cases a list comes to, in the order a single clone runs them. */
  ghost function Leaves(cases: seq<Script>): seq<Script> {
    if cases == [] then [] else LeavesOf(cases[0]) + Leaves(cases[1..])
  }

  ghost function LeavesOf(test: Script): seq<Script> {
    match test
    case Literal(_, _) => [test]
    case Include(runs, file) => if runs == 1 && file.Cases? then Leaves(file.list) else []
  }

  /** No include is missing, asks for parallel runs, or fails to parse when it is run. */
  ghost predicate Usable(cases: seq<Script>) {
    cases == [] || (UsableCase(cases[0]) && Usable(cases[1..]))
  }

  ghost predicate UsableCase(test: Script) {
    match test
    case Literal(_, _) => true
    case Include(runs, file) => !file.Missing? && (runs == 0 || (runs == 1 && file.Cases? && Usable(file.list)))
  }

  /** What the frames of a stack still have to run. */
  ghost function Rest(stack: seq<Frame>): seq<Script> {
    if stack == [] then []
    else
      var top := stack[|stack| - 1];
      (if top.next <= |top.cases| then Leaves(top.cases[top.next..]) else []) + Rest(stack[..|stack| - 1])
  }

  ghost predicate RestUsable(stack: seq<Frame>) {
    stack == [] ||
    (var top := stack[|stack| - 1];
     (top.next <= |top.cases| ==> Usable(top.cases[top.next..])) && RestUsable(stack[..|stack| - 1]))
  }

  // ---------- the log of one clone ----------

  ghost function Logged(log: seq<Entry>, i: nat): seq<Script> {
    if log == [] then []
    else
      var front, last := Logged(log[..|log| - 1], i), log[|log| - 1];
      if last.clone == i then front + [last.test] else front
  }

  ghost predicate AllPassed(log: seq<Entry>, i: nat) {
    forall k :: 0 <= k < |log| && log[k].clone == i ==>
      log[k].success || (log[k].test.Literal? && log[k].test.continueOnFailure)
  }

  /** The clone ran every literal case of its list, in order, each successful or marked to continue. */
  ghost predicate RanAll(file: File, log: seq<Entry>, i: nat) {
    file.Cases? && Usable(file.list) && Logged(log, i) == Leaves(file.list) && AllPassed(log, i)
  }

  ghost predicate InBounds(stack: seq<Frame>) {
    forall k :: 0 <= k < |stack| ==> stack[k].next <= |stack[k].cases|
  }

  ghost predicate CloneInvariant(file: File, clone: Clone, log: seq<Entry>, i: nat) {
    match clone
    case Running(stack) =>
      && stack != [] && InBounds(stack) && file.Cases?
      && Logged(log, i) + Rest(stack) == Leaves(file.list)
      && AllPassed(log, i)
      && (RestUsable(stack) <==> Usable(file.list))
    case Succeeded => RanAll(file, log, i)
    case Failed => !file.Cases? || !Usable(file.list) || !AllPassed(log, i)
  }

  ghost predicate AllClones(files: seq<File>, s: State) {
    && |s.clones| == |files|
    && forall i :: 0 <= i < |files| ==> CloneInvariant(files[i], s.clones[i], s.log, i)
  }

  lemma LoggedAppend(log: seq<Entry>, e: Entry, i: nat)
    ensures Logged(log + [e], i) == if e.clone == i then Logged(log, i) + [e.test] else Logged(log, i)
    ensures AllPassed(log + [e], i) <==> AllPassed(log, i) && (e.clone == i ==> Passes(e.test, e.success))
  {
    assert (log + [e])[..|log|] == log;
    if AllPassed(log + [e], i) {
      assert (log + [e])[|log|] == e;
      assert forall k :: 0 <= k < |log| ==> (log + [e])[k] == log[k];
    }
  }

  lemma LeavesFrom(cases: seq<Script>, n: nat)
    requires n < |cases|
    ensures Leaves(cases[n..]) == LeavesOf(cases[n]) + Leaves(cases[n + 1..])
    ensures Usable(cases[n..]) <==> UsableCase(cases[n]) && Usable(cases[n + 1..])
  {
    assert cases[n..][1..] == cases[n + 1..];
  }

  lemma RestPush(below: seq<Frame>, top: Frame)
    requires top.next <= |top.cases|
    ensures Rest(below + [top]) == Leaves(top.cases[top.next..]) + Rest(below)
    ensures RestUsable(below + [top]) <==> Usable(top.cases[top.next..]) && RestUsable(below)
  {
    assert (below + [top])[..|below|] == below;
  }

  /** What remains of a stack whose top frame is at a case: that case, and the rest after moving on. */
  lemma RestMoves(stack: seq<Frame>, below: seq<Frame>, top: Frame)
    requires stack == below + [top] && top.next < |top.cases|
    ensures var test, moved := top.cases[top.next], below + [top.(next := top.next + 1)];
      && Rest(stack) == LeavesOf(test) + Rest(moved)
      && (RestUsable(stack) <==> UsableCase(test) && RestUsable(moved))
  {
    RestPush(below, top);
    RestPush(below, top.(next := top.next + 1));
    LeavesFrom(top.cases, top.next);
    Regroup(LeavesOf(top.cases[top.next]), Leaves(top.cases[top.next + 1..]), Rest(below));
  }

  lemma Regroup(a: seq<Script>, b: seq<Script>, c: seq<Script>)
    ensures (a + b) + c == a + (b + c)
  {
  }

  lemma LiteralStepKeeps(file: File, stack: seq<Frame>, log: seq<Entry>, i: nat, entry: Entry, moved: seq<Frame>)
    requires CloneInvariant(file, Running(stack), log, i)
    requires entry.clone == i && Rest(stack) == [entry.test] + Rest(moved) && moved != [] && InBounds(moved)
    requires RestUsable(stack) <==> RestUsable(moved)
    ensures var clone := if Passes(entry.test, entry.success) then Running(moved) else Failed;
      CloneInvariant(file, clone, log + [entry], i)
  {
    LoggedAppend(log, entry, i);
    assert (Logged(log, i) + [entry.test]) + Rest(moved) == Logged(log, i) + Rest(stack);
  }

  lemma EndStepKeeps(file: File, stack: seq<Frame>, log: seq<Entry>, i: nat, below: seq<Frame>, top: Frame)
    requires CloneInvariant(file, Running(stack), log, i)
    requires stack == below + [top] && top.next == |top.cases|
    ensures CloneInvariant(file, if below == [] then Succeeded else Running(below), log, i)
  {
    RestPush(below, top);
    assert top.cases[top.next..] == [];
    assert Rest(stack) == Rest(below);
    if below == [] {
      assert RestUsable(below);
      assert Logged(log, i) + [] == Logged(log, i);
    }
  }

  lemma EnterKeeps(stack: seq<Frame>, moved: seq<Frame>, list: seq<Script>, loader: int)
    requires Rest(stack) == Leaves(list) + Rest(moved)
    requires RestUsable(stack) <==> Usable(list) && RestUsable(moved)
    ensures var inner := moved + [Frame(list, 0, 0, loader)];
      Rest(inner) == Rest(stack) && (RestUsable(inner) <==> RestUsable(stack))
  {
    assert list[0..] == list;
    RestPush(moved, Frame(list, 0, 0, loader));
  }

  ghost predicate AtInclude(stack: seq<Frame>, below: seq<Frame>, top: Frame) {
    stack == below + [top] && top.next < |top.cases| && top.cases[top.next].Include?
  }

  lemma EnterStepKeeps(file: File, stack: seq<Frame>, log: seq<Entry>, i: nat, below: seq<Frame>, top: Frame)
    requires CloneInvariant(file, Running(stack), log, i) && AtInclude(stack, below, top)
    requires var test := top.cases[top.next]; test.runs == 1 && test.file.Cases?
    ensures var inner := Frame(top.cases[top.next].file.list, 0, 0, BuildLoader(top.loader, 0));
      CloneInvariant(file, Running(below + [top.(next := top.next + 1)] + [inner]), log, i)
  {
    var test, moved := top.cases[top.next], below + [top.(next := top.next + 1)];
    RestMoves(stack, below, top);
    EnterKeeps(stack, moved, test.file.list, BuildLoader(top.loader, 0));
  }

  lemma SkipStepKeeps(file: File, stack: seq<Frame>, log: seq<Entry>, i: nat, below: seq<Frame>, top: Frame)
    requires CloneInvariant(file, Running(stack), log, i) && AtInclude(stack, below, top)
    requires var test := top.cases[top.next]; test.runs == 0 && !test.file.Missing?
    ensures CloneInvariant(file, Running(below + [top.(next := top.next + 1)]), log, i)
  {
    var moved := below + [top.(next := top.next + 1)];
    RestMoves(stack, below, top);
    assert [] + Rest(moved) == Rest(moved);
  }

  lemma UnusableStepKeeps(file: File, stack: seq<Frame>, log: seq<Entry>, i: nat, below: seq<Frame>, top: Frame)
    requires CloneInvariant(file, Running(stack), log, i) && AtInclude(stack, below, top)
    requires !UsableCase(top.cases[top.next])
    ensures CloneInvariant(file, Failed, log, i)
  {
    RestMoves(stack, below, top);
  }

  /** What a step on an include comes to. */
  lemma IncludeStep(i: nat, below: seq<Frame>, top: Frame, success: bool)
    requires top.next < |top.cases| && top.cases[top.next].Include?
    ensures var test, moved := top.cases[top.next], below + [top.(next := top.next + 1)];
      FrameStep(i, below, top, success) ==
        (if test.runs == 1 && test.file.Cases? then Running(moved + [Frame(test.file.list, 0, 0, BuildLoader(top.loader, 0))])
         else if test.runs == 0 && !test.file.Missing? then Running(moved)
         else Failed, None)
  {
  }

  lemma IncludeStepKeeps(file: File, stack: seq<Frame>, log: seq<Entry>, i: nat, below: seq<Frame>, top: Frame,
                         success: bool, clone: Clone)
    requires CloneInvariant(file, Running(stack), log, i) && AtInclude(stack, below, top)
    requires clone == FrameStep(i, below, top, success).0
    ensures CloneInvariant(file, clone, log, i)
  {
    var test := top.cases[top.next];
    IncludeStep(i, below, top, success);
    if test.runs == 1 && test.file.Cases? {
      EnterStepKeeps(file, stack, log, i, below, top);
    } else if test.runs == 0 && !test.file.Missing? {
      SkipStepKeeps(file, stack, log, i, below, top);
    } else {
      UnusableStepKeeps(file, stack, log, i, below, top);
    }
  }

  /** A step consumes the head of what remains, and fails only on a failed case or an unusable include. */
  lemma CloneStepKeeps(file: File, stack: seq<Frame>, log: seq<Entry>, i: nat, success: bool)
    requires CloneInvariant(file, Running(stack), log, i)
    ensures var (clone, entry) := CloneStep(i, stack, success);
      && (entry.Some? ==> entry.value.clone == i)
      && CloneInvariant(file, clone, if entry.Some? then log + [entry.value] else log, i)
  {
    var below, top := stack[..|stack| - 1], stack[|stack| - 1];
    assert stack == below + [top];
    if top.next == |top.cases| {
      EndStepKeeps(file, stack, log, i, below, top);
    } else if top.cases[top.next].Literal? {
      var entry := FrameStep(i, below, top, success).1.value;
      RestMoves(stack, below, top);
      LiteralStepKeeps(file, stack, log, i, entry, below + [top.(next := top.next + 1)]);
    } else {
      IncludeStep(i, below, top, success);
      IncludeStepKeeps(file, stack, log, i, below, top, success, FrameStep(i, below, top, success).0);
    }
  }

  lemma StepKeeps(files: seq<File>, s: State, i: nat, success: bool)
    requires AllClones(files, s)
    ensures AllClones(files, Step(s, i, success))
  {
    if i < |s.clones| && s.clones[i].Running? {
      CloneStepKeeps(files[i], s.clones[i].stack, s.log, i, success);
      var (clone, entry) := CloneStep(i, s.clones[i].stack, success);
      forall j | 0 <= j < |files| && j != i
        ensures CloneInvariant(files[j], s.clones[j], if entry.Some? then s.log + [entry.value] else s.log, j)
      {
        if entry.Some? {
          LoggedAppend(s.log, entry.value, j);
        }
      }
    }
  }

  lemma {:induction false} RunKeeps(files: seq<File>, rootLoader: int, moves: seq<Move>)
    ensures AllClones(files, Run(Init(files, rootLoader), moves))
  {
    if moves == [] {
      forall i | 0 <= i < |files| ensures CloneInvariant(files[i], Start(files[i], i, rootLoader), [], i) {
        if files[i].Cases? {
          RestPush([], Frame(files[i].list, 0, i, BuildLoader(rootLoader, i)));
          assert files[i].list[0..] == files[i].list;
          var frame := Frame(files[i].list, 0, i, BuildLoader(rootLoader, i));
          assert [] + [frame] == [frame];
        }
      }
    } else {
      var last := moves[|moves| - 1];
      RunKeeps(files, rootLoader, moves[..|moves| - 1]);
      StepKeeps(files, Run(Init(files, rootLoader), moves[..|moves| - 1]), last.clone, last.success);
    }
  }

  // ---------- the counter ----------

  ghost function Successes(clones: seq<Clone>): nat {
    if clones == [] then 0
    else Successes(clones[..|clones| - 1]) + if clones[|clones| - 1].Succeeded? then 1 else 0
  }

  lemma {:induction false} SuccessesUpdate(clones: seq<Clone>, i: nat, clone: Clone)
    requires i < |clones| && !clones[i].Succeeded?
    ensures Successes(clones[i := clone]) == Successes(clones) + if clone.Succeeded? then 1 else 0
  {
    var n := |clones| - 1;
    if i < n {
      SuccessesUpdate(clones[..n], i, clone);
      assert clones[i := clone][..n] == clones[..n][i := clone];
    } else {
      assert clones[i := clone][..n] == clones[..n];
    }
  }

  lemma {:induction false} NoSuccesses(clones: seq<Clone>)
    requires forall i :: 0 <= i < |clones| ==> !clones[i].Succeeded?
    ensures Successes(clones) == 0
  {
    if clones != [] {
      NoSuccesses(clones[..|clones| - 1]);
    }
  }

  lemma {:induction false} AllSuccesses(clones: seq<Clone>)
    ensures Successes(clones) <= |clones|
    ensures Successes(clones) == |clones| <==> forall i :: 0 <= i < |clones| ==> clones[i].Succeeded?
  {
    if clones != [] {
      AllSuccesses(clones[..|clones| - 1]);
    }
  }

  lemma WrapStep(x: nat)
    ensures (x % UINT32 + 1) % UINT32 == (x + 1) % UINT32
  {
  }

  lemma SameBelowWrap(x: nat, n: nat)
    requires x <= n < UINT32
    ensures x % UINT32 == n % UINT32 <==> x == n
  {
  }

  /** The counter after a step, in terms of the clones that have succeeded. */
  lemma StepCounts(s: State, i: nat, success: bool)
    requires s.successCount == Successes(s.clones) % UINT32
    ensures Step(s, i, success).successCount == Successes(Step(s, i, success).clones) % UINT32
  {
    if i < |s.clones| && s.clones[i].Running? && s.clones[i].stack != [] {
      var clone := CloneStep(i, s.clones[i].stack, success).0;
      SuccessesUpdate(s.clones, i, clone);
      WrapStep(Successes(s.clones));
    }
  }

  lemma {:induction false} CountsSuccesses(files: seq<File>, rootLoader: int, moves: seq<Move>)
    ensures var s := Run(Init(files, rootLoader), moves); s.successCount == Successes(s.clones) % UINT32
  {
    if moves == [] {
      NoSuccesses(Init(files, rootLoader).clones);
    } else {
      var last := moves[|moves| - 1];
      CountsSuccesses(files, rootLoader, moves[..|moves| - 1]);
      StepCounts(Run(Init(files, rootLoader), moves[..|moves| - 1]), last.clone, last.success);
    }
  }

  // ---------- the verdict ----------

  /**
   Under every interleaving: once all clones are joined, the test passed iff every clone
   ran its whole case list with each case successful or marked to continue.
   */
  lemma ParallelVerdict(files: seq<File>, rootLoader: int, moves: seq<Move>)
    requires |files| < UINT32 && Joined(Run(Init(files, rootLoader), moves))
    ensures var s := Run(Init(files, rootLoader), moves);
      Verdict(s) <==> forall i :: 0 <= i < |files| ==> RanAll(files[i], s.log, i)
  {
    var s := Run(Init(files, rootLoader), moves);
    RunKeeps(files, rootLoader, moves);
    CountsSuccesses(files, rootLoader, moves);
    AllSuccesses(s.clones);
    SameBelowWrap(Successes(s.clones), |files|);
    forall i | 0 <= i < |files| ensures s.clones[i].Succeeded? <==> RanAll(files[i], s.log, i) {
      assert CloneInvariant(files[i], s.clones[i], s.log, i);
    }
  }

  /** What parseAndRunTest is given: a file that cannot be loaded, or what each of its clones renders. */
  datatype Test = Unloadable | Parallel(files: seq<File>)

  /** Its result; before any clone is started, it fails if the file cannot be loaded. */
  predicate Result(test: Test, rootLoader: int, moves: seq<Move>) {
    test.Parallel? && Verdict(Run(Init(test.files, rootLoader), moves))
  }

  /** A test passes iff its file is loaded and every clone, of which there may be none, ran its list. */
  lemma TestResult(test: Test, rootLoader: int, moves: seq<Move>)
    requires test.Parallel? ==> |test.files| < UINT32 && Joined(Run(Init(test.files, rootLoader), moves))
    ensures Result(test, rootLoader, moves) <==>
      && test.Parallel?
      && forall i :: 0 <= i < |test.files| ==> RanAll(test.files[i], Run(Init(test.files, rootLoader), moves).log, i)
  {
    if test.Parallel? {
      ParallelVerdict(test.files, rootLoader, moves);
    }
  }

  /** 2^32 files that do not parse and, beyond them, empty lists. */
  function WrappingFiles(n: nat): seq<File> {
    seq(n, i requires 0 <= i < n => if i < UINT32 then Unparsable else Cases([]))
  }

  function WrappingMoves(k: nat): seq<Move> {
    seq(k, j requires 0 <= j < k => Move(UINT32 + j, true))
  }

  /** The empty lists succeed one after the other. */
  lemma {:induction false} EmptyListsSucceed(n: nat, rootLoader: int, k: nat)
    requires UINT32 + k <= n
    ensures var s := Run(Init(WrappingFiles(n), rootLoader), WrappingMoves(k));
      && |s.clones| == n && s.successCount == k % UINT32
      && (forall i :: 0 <= i < UINT32 ==> s.clones[i] == Failed)
      && (forall i :: UINT32 <= i < UINT32 + k ==> s.clones[i] == Succeeded)
      && (forall i :: UINT32 + k <= i < n ==> s.clones[i] == Start(Cases([]), i, rootLoader))
  {
    if k > 0 {
      EmptyListsSucceed(n, rootLoader, k - 1);
      var moves := WrappingMoves(k);
      assert moves[..k - 1] == WrappingMoves(k - 1) && moves[k - 1] == Move(UINT32 + k - 1, true);
      WrapStep(k - 1);
    }
  }

  ghost predicate VerdictSound(n: nat) {
    forall files, rootLoader, moves :: |files| == n && Joined(Run(Init(files, rootLoader), moves)) ==>
      var s := Run(Init(files, rootLoader), moves);
      Verdict(s) <==> forall i :: 0 <= i < n ==> RanAll(files[i], s.log, i)
  }

  /** The counter is compared modulo 2^32: the verdict can be relied on exactly below that many clones. */
  lemma VerdictSoundIff(n: nat)
    ensures VerdictSound(n) <==> n < UINT32
  {
    if n < UINT32 {
      forall files, rootLoader, moves | |files| == n && Joined(Run(Init(files, rootLoader), moves))
        ensures var s := Run(Init(files, rootLoader), moves);
          Verdict(s) <==> forall i :: 0 <= i < n ==> RanAll(files[i], s.log, i)
      {
        ParallelVerdict(files, rootLoader, moves);
      }
    } else {
      WrappingVerdict(n);
    }
  }

  lemma WrappingVerdict(n: nat)
    requires n >= UINT32
    ensures |WrappingFiles(n)| == n
    ensures var s := Run(Init(WrappingFiles(n), 0), WrappingMoves(n - UINT32));
      Joined(s) && Verdict(s) && !RanAll(WrappingFiles(n)[0], s.log, 0)
  {
    EmptyListsSucceed(n, 0, n - UINT32);
    SameModulus(n);
  }

  lemma SameModulus(n: nat)
    requires n >= UINT32
    ensures (n - UINT32) % UINT32 == n % UINT32
  {
  }

  // ---------- every clone ends ----------

  /** The steps a clone needs to go through a list, its end included. */
  ghost function Work(cases: seq<Script>): (w: nat)
    ensures w > 0
  {
    if cases == [] then 1 else WorkOf(cases[0]) + Work(cases[1..])
  }

  ghost function WorkOf(test: Script): nat {
    match test
    case Literal(_, _) => 1
    case Include(runs, file) => if runs == 1 && file.Cases? then 1 + Work(file.list) else 1
  }

  ghost function StackWork(stack: seq<Frame>): (w: nat)
    ensures stack != [] ==> w > 0
  {
    if stack == [] then 0
    else
      var top := stack[|stack| - 1];
      (if top.next <= |top.cases| then Work(top.cases[top.next..]) else 1) + StackWork(stack[..|stack| - 1])
  }

  /** The moves of clone i. */
  ghost function Turns(moves: seq<Move>, i: nat): nat {
    if moves == [] then 0
    else Turns(moves[..|moves| - 1], i) + if moves[|moves| - 1].clone == i then 1 else 0
  }

  lemma StackWorkPush(below: seq<Frame>, top: Frame)
    requires top.next <= |top.cases|
    ensures StackWork(below + [top]) == Work(top.cases[top.next..]) + StackWork(below)
  {
    assert (below + [top])[..|below|] == below;
  }

  /** A step does one of the steps that are left to do. */
  lemma StepWorks(i: nat, stack: seq<Frame>, success: bool)
    requires stack != []
    ensures var clone := CloneStep(i, stack, success).0;
      clone.Running? ==> clone.stack != [] && StackWork(clone.stack) + 1 == StackWork(stack)
  {
    var below, top := stack[..|stack| - 1], stack[|stack| - 1];
    if top.next < |top.cases| {
      var moved := top.(next := top.next + 1);
      assert top.cases[top.next..][1..] == top.cases[moved.next..];
      StackWorkPush(below, moved);
      var test := top.cases[top.next];
      assert StackWork(stack) == WorkOf(test) + StackWork(below + [moved]);
      match test {
        case Literal(_, _) =>
        case Include(runs, file) =>
          if runs == 1 && file.Cases? {
            var frame := Frame(file.list, 0, 0, BuildLoader(top.loader, 0));
            StackWorkPush(below + [moved], frame);
            assert file.list[0..] == file.list;
            assert WorkOf(test) == 1 + Work(file.list);
          } else {
            assert WorkOf(test) == 1;
          }
      }
    }
  }

  /** The work of a running clone that is done and that is left. */
  ghost predicate OnTime(files: seq<File>, s: State, moves: seq<Move>, i: nat) {
    i < |files| == |s.clones| && (s.clones[i].Running? ==>
      && files[i].Cases? && s.clones[i].stack != []
      && Turns(moves, i) + StackWork(s.clones[i].stack) == Work(files[i].list))
  }

  lemma {:induction false} RunsOnTime(files: seq<File>, rootLoader: int, moves: seq<Move>, i: nat)
    requires i < |files|
    ensures OnTime(files, Run(Init(files, rootLoader), moves), moves, i)
  {
    if moves == [] {
      if files[i].Cases? {
        var list := files[i].list;
        StackWorkPush([], Frame(list, 0, i, BuildLoader(rootLoader, i)));
        assert list[0..] == list;
        assert [] + [Frame(list, 0, i, BuildLoader(rootLoader, i))] == [Frame(list, 0, i, BuildLoader(rootLoader, i))];
      }
    } else {
      var last := moves[|moves| - 1];
      var s := Run(Init(files, rootLoader), moves[..|moves| - 1]);
      RunsOnTime(files, rootLoader, moves[..|moves| - 1], i);
      if last.clone == i && s.clones[i].Running? {
        StepWorks(i, s.clones[i].stack, last.success);
      }
    }
  }

  /** Clones that each get as many moves as their lists hold steps are joined, however the moves interleave. */
  lemma AllEnd(files: seq<File>, rootLoader: int, moves: seq<Move>)
    requires forall i :: 0 <= i < |files| && files[i].Cases? ==> Turns(moves, i) >= Work(files[i].list)
    ensures Joined(Run(Init(files, rootLoader), moves))
  {
    var s := Run(Init(files, rootLoader), moves);
    SameClones(files, rootLoader, moves);
    forall i | 0 <= i < |s.clones| ensures !s.clones[i].Running? {
      RunsOnTime(files, rootLoader, moves, i);
    }
  }

  lemma {:induction false} SameClones(files: seq<File>, rootLoader: int, moves: seq<Move>)
    ensures |Run(Init(files, rootLoader), moves).clones| == |files|
  {
    if moves != [] {
      SameClones(files, rootLoader, moves[..|moves| - 1]);
    }
  }

  // ---------- what a case sees ----------

  ghost predicate SeesLoader(s: State, rootLoader: int) {
    && (forall k :: 0 <= k < |s.log| ==>
          s.log[k].loader == if rootLoader < 0 then s.log[k].clone as int else rootLoader)
    && (forall i, k :: 0 <= i < |s.clones| && s.clones[i].Running? && 0 <= k < |s.clones[i].stack| ==>
          s.clones[i].stack[k].loader == if rootLoader < 0 then i as int else rootLoader)
  }

  /**
   At every include depth a case is rendered with the index of its top-level clone as
   ParallelRunIdx, or with the one the root loader has already.
   */
  lemma {:induction false} LoaderOfClone(files: seq<File>, rootLoader: int, moves: seq<Move>)
    ensures SeesLoader(Run(Init(files, rootLoader), moves), rootLoader)
  {
    if moves != [] {
      LoaderOfClone(files, rootLoader, moves[..|moves| - 1]);
      var last := moves[|moves| - 1];
      var s := Run(Init(files, rootLoader), moves[..|moves| - 1]);
      var i := last.clone;
      if i < |s.clones| && s.clones[i].Running? && s.clones[i].stack != [] {
        var (clone, entry) := CloneStep(i, s.clones[i].stack, last.success);
        var own := if rootLoader < 0 then i as int else rootLoader;
        assert clone.Running? ==> forall k :: 0 <= k < |clone.stack| ==> clone.stack[k].loader == own;
        assert entry.Some? ==> entry.value.clone == i && entry.value.loader == own;
      }
    }
  }

  // ---------- the index of a case ----------

  /** The cases of a clone's own list are logged with the index its position in the list gives. */
  ghost predicate PositionLogged(files: seq<File>, e: Entry) {
    e.depth == 0 ==>
      && e.clone < |files| && files[e.clone].Cases?
      && var list := files[e.clone].list; var at := e.index - e.clone * |list|;
         0 <= at < |list| && list[at] == e.test
  }

  /** The lowest frame of a running clone is at a position of the clone's own list. */
  ghost predicate OnOwnList(files: seq<File>, clone: Clone, i: nat) {
    clone.Running? ==>
      && clone.stack != [] && i < |files| && files[i].Cases?
      && clone.stack[0].cases == files[i].list && clone.stack[0].runIdx == i && clone.stack[0].next <= |files[i].list|
  }

  lemma OwnListStep(files: seq<File>, i: nat, stack: seq<Frame>, success: bool)
    requires OnOwnList(files, Running(stack), i)
    ensures var (clone, entry) := CloneStep(i, stack, success);
      OnOwnList(files, clone, i) && (entry.Some? ==> PositionLogged(files, entry.value))
  {
    var (clone, entry) := CloneStep(i, stack, success);
    if entry.Some? && entry.value.depth == 0 {
      assert stack[0] == stack[|stack| - 1];
      assert entry.value.index == i * |files[i].list| + stack[0].next;
    }
  }

  ghost predicate OwnLists(files: seq<File>, s: State) {
    && (forall i :: 0 <= i < |s.clones| ==> OnOwnList(files, s.clones[i], i))
    && (forall k :: 0 <= k < |s.log| ==> PositionLogged(files, s.log[k]))
  }

  lemma StepKeepsLists(files: seq<File>, s: State, i: nat, success: bool)
    requires OwnLists(files, s)
    ensures OwnLists(files, Step(s, i, success))
  {
    if i < |s.clones| && s.clones[i].Running? && s.clones[i].stack != [] {
      assert OnOwnList(files, s.clones[i], i);
      OwnListStep(files, i, s.clones[i].stack, success);
    }
  }

  /** Every case of a clone's own list has the index clone * length + position. */
  lemma {:induction false} CaseIndex(files: seq<File>, rootLoader: int, moves: seq<Move>)
    ensures OwnLists(files, Run(Init(files, rootLoader), moves))
  {
    if moves != [] {
      var last := moves[|moves| - 1];
      CaseIndex(files, rootLoader, moves[..|moves| - 1]);
      StepKeepsLists(files, Run(Init(files, rootLoader), moves[..|moves| - 1]), last.clone, last.success);
    }
  }

  ghost predicate SameLength(files: seq<File>, len: nat) {
    forall i :: 0 <= i < |files| ==> files[i].Cases? && |files[i].list| == len
  }

  /** The lowest frame of a running clone goes through the clone's own list. */
  ghost predicate OwnFrame(clone: Clone, i: nat, len: nat) {
    clone.Running? ==>
      && clone.stack != []
      && |clone.stack[0].cases| == len && clone.stack[0].runIdx == i && clone.stack[0].next <= len
  }

  ghost predicate OwnIndex(e: Entry, clone: Clone, len: nat) {
    e.depth == 0 ==>
      && e.clone * len <= e.index < e.clone * len + len
      && (clone.Running? && clone.stack != [] ==> e.index < e.clone * len + clone.stack[0].next)
  }

  ghost predicate SameList(e: Entry, f: Entry) {
    e.depth == 0 && f.depth == 0 && e.clone == f.clone
  }

  ghost predicate IndexInvariant(s: State, len: nat) {
    && (forall i :: 0 <= i < |s.clones| ==> OwnFrame(s.clones[i], i, len))
    && (forall k :: 0 <= k < |s.log| ==> s.log[k].clone < |s.clones| && OwnIndex(s.log[k], s.clones[s.log[k].clone], len))
    && (forall k, l :: 0 <= k < l < |s.log| && SameList(s.log[k], s.log[l]) ==> s.log[k].index < s.log[l].index)
  }

  lemma OwnStep(i: nat, stack: seq<Frame>, success: bool, len: nat)
    requires OwnFrame(Running(stack), i, len)
    ensures var (clone, entry) := CloneStep(i, stack, success);
      && (clone.Running? ==> OwnFrame(clone, i, len) && clone.stack[0].next >= stack[0].next)
      && (entry.Some? ==> entry.value.clone == i && OwnIndex(entry.value, clone, len))
      && (entry.Some? && entry.value.depth == 0 ==> entry.value.index == i * len + stack[0].next)
  {
  }

  lemma StepKeepsIndices(s: State, i: nat, success: bool, len: nat)
    requires IndexInvariant(s, len)
    ensures IndexInvariant(Step(s, i, success), len)
  {
    if i < |s.clones| && s.clones[i].Running? && s.clones[i].stack != [] {
      assert OwnFrame(s.clones[i], i, len);
      OwnStep(i, s.clones[i].stack, success, len);
      var s' := Step(s, i, success);
      forall k | 0 <= k < |s.log| ensures OwnIndex(s.log[k], s'.clones[s.log[k].clone], len) {
        assert OwnIndex(s.log[k], s.clones[s.log[k].clone], len);
      }
    }
  }

  lemma {:induction false} RunKeepsIndices(files: seq<File>, rootLoader: int, moves: seq<Move>, len: nat)
    requires SameLength(files, len)
    ensures IndexInvariant(Run(Init(files, rootLoader), moves), len)
    ensures |Run(Init(files, rootLoader), moves).clones| == |files|
  {
    if moves != [] {
      var last := moves[|moves| - 1];
      RunKeepsIndices(files, rootLoader, moves[..|moves| - 1], len);
      StepKeepsIndices(Run(Init(files, rootLoader), moves[..|moves| - 1]), last.clone, last.success, len);
    }
  }

  lemma SlotBound(runs: nat, len: nat, r: nat)
    requires r < runs
    ensures r * len + len <= runs * len
  {
    assert (r + 1) * len <= runs * len;
  }

  /**
   When all clones render the same number of cases, the literal cases of their own lists
   carry pairwise different indices, all below runs * len, in every interleaving.
   */
  lemma IndicesDistinct(files: seq<File>, rootLoader: int, moves: seq<Move>, len: nat)
    requires SameLength(files, len)
    ensures var log := Run(Init(files, rootLoader), moves).log;
      && (forall k :: 0 <= k < |log| && log[k].depth == 0 ==> log[k].index < |files| * len)
      && (forall k, l :: 0 <= k < l < |log| && log[k].depth == 0 && log[l].depth == 0 ==> log[k].index != log[l].index)
  {
    RunKeepsIndices(files, rootLoader, moves, len);
    var s := Run(Init(files, rootLoader), moves);
    forall k | 0 <= k < |s.log| && s.log[k].depth == 0 ensures s.log[k].index < |files| * len {
      assert OwnIndex(s.log[k], s.clones[s.log[k].clone], len);
      SlotBound(|files|, len, s.log[k].clone);
    }
    forall k, l | 0 <= k < l < |s.log| && s.log[k].depth == 0 && s.log[l].depth == 0
      ensures s.log[k].index != s.log[l].index
    {
      assert OwnIndex(s.log[k], s.clones[s.log[k].clone], len) && OwnIndex(s.log[l], s.clones[s.log[l].clone], len);
      if s.log[k].clone < s.log[l].clone {
        SlotBound(s.log[l].clone, len, s.log[k].clone);
      } else if s.log[l].clone < s.log[k].clone {
        SlotBound(s.log[k].clone, len, s.log[l].clone);
      } else {
        assert SameList(s.log[k], s.log[l]);
      }
    }
  }

  // ---------- the suite ----------

  /** The loop of Suite.run over the tests' verdicts: it stops at the first failure. */
  method RunSuite(verdicts: seq<bool>) returns (success: bool, ran: nat)
    ensures success <==> forall i :: 0 <= i < |verdicts| ==> verdicts[i]
    ensures ran <= |verdicts| && (success ==> ran == |verdicts|)
    ensures !success ==> ran > 0 && !verdicts[ran - 1] && forall i :: 0 <= i < ran - 1 ==> verdicts[i]
  {
    success, ran := true, 0;
    while ran < |verdicts| && success
      invariant ran <= |verdicts|
      invariant success ==> forall i :: 0 <= i < ran ==> verdicts[i]
      invariant !success ==> ran > 0 && !verdicts[ran - 1] && forall i :: 0 <= i < ran - 1 ==> verdicts[i]
      decreases |verdicts| - ran, success
    {
      success := verdicts[ran];
      ran := ran + 1;
    }
  }
}
