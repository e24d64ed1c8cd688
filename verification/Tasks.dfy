/**
  * The completion protocol of Task coroutines.
  *
  * A chain of n tasks: task 0 awaits nothing, task i + 1 awaits task i once. Every step
  * that two threads could interleave is an action of its own, and a run is any sequence
  * of enabled actions. When a task resumes its awaiter, the awaiter becomes runnable and
  * it goes on to its own end independently, which allows every schedule of the
  * synchronous call and more.
  */
module Tasks {

  /** How a task ended. */
  datatype Ending = Value | Exception

  /** Where a task is. */
  datatype Phase =
    | Starting        // before await_ready on the inner task
    | Unready         // await_ready was false, await_suspend is next
    | Suspended       // registered with the inner task
    | Awake           // await_ready was true, or resumed: await_resume is next
    | Running         // in its own body
    | Ended           // result set, final_suspend is next
    | Found           // final_suspend saw a registered awaiter
    | Unclaimed       // final_suspend saw none
    | Handed          // the awaiter was resumed
    | Gone            // frame destroyed

  datatype State = State(
    phase: seq<Phase>,
    prev: seq<bool>,               // _prev of the promise is set
    result: seq<Ending>,           // meaningful once HasResult
    resumes: seq<nat>,             // how often it resumed its awaiter
    dangling: bool)                // some registration wrote to a destroyed frame

  datatype Action =
    | TestReady(i: nat)
    | Register(i: nat)
    | GetResult(i: nat)
    | SetResult(i: nat, e: Ending)
    | CheckPrev(i: nat)
    | ResumePrev(i: nat)
    | Destroy(i: nat)

  predicate HasResult(p: Phase) {
    p.Ended? || p.Found? || p.Unclaimed? || p.Handed? || p.Gone?
  }

  predicate PastAwait(p: Phase) {
    p.Awake? || p.Running? || HasResult(p)
  }

  predicate Checked(p: Phase) {
    p.Found? || p.Unclaimed? || p.Handed? || p.Gone?
  }

  predicate Sized(s: State) {
    |s.phase| == |s.prev| == |s.result| == |s.resumes|
  }

  // ---- the steps ----

  predicate Enabled(s: State, a: Action)
    requires Sized(s)
  {
    && a.i < |s.phase|
    && match a
       case TestReady(i) => s.phase[i].Starting? && i > 0
       case Register(i) => s.phase[i].Unready? && i > 0
       case GetResult(i) => s.phase[i].Awake?
       case SetResult(i, _) => s.phase[i].Running?
       case CheckPrev(i) => s.phase[i].Ended?
       case ResumePrev(i) => s.phase[i].Found? && i + 1 < |s.phase|
       case Destroy(i) => s.phase[i].Unclaimed? || s.phase[i].Handed?
  }

  function Apply(s: State, a: Action): (t: State)
    requires Sized(s) && Enabled(s, a)
    ensures Sized(t) && |t.phase| == |s.phase|
  {
    match a
    case TestReady(i) =>
      s.(phase := s.phase[i := if HasResult(s.phase[i - 1]) then Awake else Unready])
    case Register(i) =>
      s.(phase := s.phase[i := Suspended], prev := s.prev[i - 1 := true],
         dangling := s.dangling || s.phase[i - 1].Gone?)
    case GetResult(i) => s.(phase := s.phase[i := Running])
    case SetResult(i, e) => s.(phase := s.phase[i := Ended], result := s.result[i := e])
    case CheckPrev(i) => s.(phase := s.phase[i := if s.prev[i] then Found else Unclaimed])
    case ResumePrev(i) =>
      s.(phase := s.phase[i := Handed][i + 1 := Awake], resumes := s.resumes[i := s.resumes[i] + 1])
    case Destroy(i) => s.(phase := s.phase[i := Gone])
  }

  /** All tasks at their beginning; the innermost already in its body. */
  function Init(n: nat): (s: State)
    ensures Sized(s) && |s.phase| == n
  {
    State(seq(n, i => if i == 0 then Running else Starting), seq(n, _ => false),
          seq(n, _ => Value), seq(n, _ => 0), false)
  }

  /** Tasks that have all registered on the next inner one, the innermost still running. */
  function Chain(n: nat): (s: State)
    ensures Sized(s) && |s.phase| == n
  {
    State(seq(n, i => if i == 0 then Running else Suspended), seq(n, i => i + 1 < n),
          seq(n, _ => Value), seq(n, _ => 0), false)
  }

  /** `trace` leads from `s` to `t`. */
  ghost predicate Leads(s: State, trace: seq<Action>, t: State)
    requires Sized(s)
    decreases |trace|
  {
    if trace == [] then s == t
    else
      var init := trace[..|trace| - 1];
      exists u :: Sized(u) && Leads(s, init, u) && Enabled(u, trace[|trace| - 1]) && t == Apply(u, trace[|trace| - 1])
  }

  // ---- what every step keeps ----

  /** Task `i` and its awaiter, if it has one, agree. */
  ghost predicate Agree(s: State, i: nat)
    requires Sized(s) && i < |s.phase|
  {
    && (i == 0 ==> PastAwait(s.phase[0]))
    && (s.phase[i].Found? ==> i + 1 < |s.phase| && s.phase[i + 1].Suspended?)
    && (s.phase[i].Handed? ==> s.resumes[i] == 1)
    && (s.resumes[i] == 1 ==> s.phase[i].Handed? || s.phase[i].Gone?)
    && s.resumes[i] <= 1
    && (i + 1 == |s.phase| ==> !s.prev[i] && s.resumes[i] == 0)
    && (i + 1 < |s.phase| ==>
          var p := s.phase[i + 1];
          && (p.Starting? || p.Unready? ==> !s.prev[i] && s.resumes[i] == 0)
          && (p.Suspended? ==> s.prev[i] && s.resumes[i] == 0)
          && (PastAwait(p) ==> HasResult(s.phase[i]) && (s.resumes[i] == 1 <==> s.prev[i])))
  }

  ghost predicate Inv(s: State) {
    Sized(s) && forall i :: 0 <= i < |s.phase| ==> Agree(s, i)
  }

  lemma StepKeepsAgree(s: State, a: Action, j: nat)
    requires Inv(s) && Enabled(s, a) && j < |s.phase|
    ensures Agree(Apply(s, a), j)
  {
    assert Agree(s, j);
    assert a.i < |s.phase| && Agree(s, a.i);
    if a.i > 0 { assert Agree(s, a.i - 1); }
    if j + 1 < |s.phase| { assert Agree(s, j + 1); }
  }

  /** Every step keeps the invariant. */
  lemma StepKeepsInv(s: State, a: Action)
    requires Inv(s) && Enabled(s, a)
    ensures Inv(Apply(s, a))
  {
    forall j | 0 <= j < |s.phase| ensures Agree(Apply(s, a), j) {
      StepKeepsAgree(s, a, j);
    }
  }

  lemma StartsAgree(n: nat)
    ensures Inv(Init(n)) && Inv(Chain(n))
  {
  }

  lemma {:induction false} RunKeepsInv(s: State, trace: seq<Action>, t: State)
    requires Inv(s) && Leads(s, trace, t)
    ensures Inv(t) && |t.phase| == |s.phase|
    decreases |trace|
  {
    if trace != [] {
      var init, a := trace[..|trace| - 1], trace[|trace| - 1];
      var u :| Sized(u) && Leads(s, init, u) && Enabled(u, a) && t == Apply(u, a);
      RunKeepsInv(s, init, u);
      StepKeepsInv(u, a);
    }
  }

  // ---- safety: what a trace shows ----

  function CountResumes(trace: seq<Action>, i: nat): (n: nat) {
    if trace == [] then 0
    else CountResumes(trace[..|trace| - 1], i) + (if trace[|trace| - 1] == ResumePrev(i) then 1 else 0)
  }

  lemma {:induction false} ResumesCounted(s: State, trace: seq<Action>, t: State, i: nat)
    requires Inv(s) && Leads(s, trace, t) && i < |s.phase|
    ensures |t.phase| == |s.phase| && Sized(t) && t.resumes[i] == s.resumes[i] + CountResumes(trace, i)
    decreases |trace|
  {
    if trace != [] {
      var init, a := trace[..|trace| - 1], trace[|trace| - 1];
      var u :| Sized(u) && Leads(s, init, u) && Enabled(u, a) && t == Apply(u, a);
      ResumesCounted(s, init, u, i);
    }
  }

  ghost predicate SetBefore(trace: seq<Action>, k: nat, i: nat) {
    exists j :: 0 <= j < k && j < |trace| && trace[j].SetResult? && trace[j].i == i
  }

  /** A task has its result exactly when it had it at the start or the trace set it. */
  lemma {:induction false} ResultIsSet(s: State, trace: seq<Action>, t: State, i: nat)
    requires Inv(s) && Leads(s, trace, t) && i < |s.phase|
    ensures |t.phase| == |s.phase|
    ensures HasResult(t.phase[i]) <==> HasResult(s.phase[i]) || SetBefore(trace, |trace|, i)
    decreases |trace|
  {
    if trace != [] {
      var init, a := trace[..|trace| - 1], trace[|trace| - 1];
      var u :| Sized(u) && Leads(s, init, u) && Enabled(u, a) && t == Apply(u, a);
      ResultIsSet(s, init, u, i);
      RunKeepsInv(s, init, u);
      if SetBefore(init, |init|, i) {
        var j :| 0 <= j < |init| && init[j].SetResult? && init[j].i == i;
        assert trace[j] == init[j];
      }
      if SetBefore(trace, |trace|, i) {
        var j :| 0 <= j < |trace| && trace[j].SetResult? && trace[j].i == i;
        if j < |init| { assert init[j] == trace[j]; }
      }
      assert a.SetResult? && a.i == i ==> trace[|trace| - 1] == a;
      if HasResult(u.phase[i]) { ResultStays(u, a, i); }
      if !HasResult(u.phase[i]) && HasResult(t.phase[i]) { ResultComesFromSet(u, a, i); }
    }
  }

  lemma ResultStays(s: State, a: Action, i: nat)
    requires Inv(s) && Enabled(s, a) && i < |s.phase| && HasResult(s.phase[i])
    ensures HasResult(Apply(s, a).phase[i])
  {
    assert a.i < |s.phase| && Agree(s, a.i);
  }

  lemma ResultComesFromSet(s: State, a: Action, i: nat)
    requires Inv(s) && Enabled(s, a) && i < |s.phase|
    requires !HasResult(s.phase[i]) && HasResult(Apply(s, a).phase[i])
    ensures a.SetResult? && a.i == i
  {
  }

  /** In any run from the beginning, a task resumes its awaiter at most once. */
  lemma ResumedAtMostOnce(n: nat, trace: seq<Action>, t: State, i: nat)
    requires Leads(Init(n), trace, t) && i < n
    ensures CountResumes(trace, i) <= 1
  {
    StartsAgree(n);
    RunKeepsInv(Init(n), trace, t);
    ResumesCounted(Init(n), trace, t, i);
    assert Agree(t, i);
  }

  /** The state in which action `k` of a run was taken. */
  lemma {:induction false} Before(s: State, trace: seq<Action>, t: State, k: nat) returns (u: State)
    requires Sized(s) && Leads(s, trace, t) && k < |trace|
    ensures Sized(u) && Leads(s, trace[..k], u) && Enabled(u, trace[k])
    decreases |trace|
  {
    var init, a := trace[..|trace| - 1], trace[|trace| - 1];
    var w :| Sized(w) && Leads(s, init, w) && Enabled(w, a) && t == Apply(w, a);
    if k == |init| {
      u := w;
    } else {
      u := Before(s, init, w, k);
      assert init[..k] == trace[..k];
    }
  }

  lemma SetInPrefix(trace: seq<Action>, k: nat, i: nat)
    requires k <= |trace| && SetBefore(trace[..k], k, i)
    ensures SetBefore(trace, k, i)
  {
    var j :| 0 <= j < k && trace[..k][j].SetResult? && trace[..k][j].i == i;
    assert trace[j] == trace[..k][j];
  }

  /** The inner task whose result an action relies on: the one that resumes, or the one awaited. */
  predicate ReliesOn(a: Action, i: nat) {
    || (a.ResumePrev? && a.i == i)
    || (a.GetResult? && a.i == i + 1)
    || (a.SetResult? && a.i == i + 1)
  }

  /**
    * Safety over all interleavings: an awaiter is resumed only after the result it awaits
    * was set, it takes that result only after it was set, and it sets its own result only
    * after that. Results therefore come from the inside out.
    */
  lemma ResultComesFirst(s: State, trace: seq<Action>, t: State, k: nat, i: nat)
    requires Inv(s) && Leads(s, trace, t) && k < |trace| && ReliesOn(trace[k], i)
    ensures i < |s.phase| && (HasResult(s.phase[i]) || SetBefore(trace, k, i))
  {
    var u := Before(s, trace, t, k);
    RunKeepsInv(s, trace[..k], u);
    assert Agree(u, i);
    ResultIsSet(s, trace[..k], u, i);
    if SetBefore(trace[..k], k, i) { SetInPrefix(trace, k, i); }
  }

  // ---- lost wake-ups ----

  /** The awaiter of `i` is suspended for good: `i` looked for it before it registered. */
  ghost predicate Lost(s: State, i: nat)
    requires Sized(s)
  {
    i + 1 < |s.phase| && s.phase[i + 1].Suspended? && (s.phase[i].Unclaimed? || s.phase[i].Gone?)
  }

  /** Nothing can happen any more. */
  ghost predicate Stopped(s: State)
    requires Sized(s)
  {
    forall a :: !Enabled(s, a)
  }

  ghost predicate AllDone(s: State) {
    forall i :: 0 <= i < |s.phase| ==> s.phase[i].Gone?
  }

  /** A task that can do nothing is gone, or waits for an inner task that is not done or has missed it. */
  lemma Stuck(s: State, i: nat)
    requires Inv(s) && Stopped(s) && i < |s.phase| && !s.phase[i].Gone?
    ensures i > 0 && s.phase[i].Suspended?
  {
    assert Agree(s, i);
    assert !Enabled(s, TestReady(i)) && !Enabled(s, Register(i)) && !Enabled(s, GetResult(i));
    assert !Enabled(s, SetResult(i, Value)) && !Enabled(s, CheckPrev(i));
    assert !Enabled(s, ResumePrev(i)) && !Enabled(s, Destroy(i));
  }

  lemma {:induction false} DoneUpTo(s: State, k: nat)
    requires Inv(s) && Stopped(s) && k <= |s.phase| && forall i :: !Lost(s, i)
    ensures forall i :: 0 <= i < k ==> s.phase[i].Gone?
  {
    if k > 0 {
      DoneUpTo(s, k - 1);
      if !s.phase[k - 1].Gone? {
        Stuck(s, k - 1);
        assert Lost(s, k - 2);
      }
    }
  }

  /**
    * When a run stops, either every task is done or some wake-up was lost, never both; and
    * when every task is done, exactly the registered awaiters were resumed, once each.
    */
  lemma StopsDoneOrLost(n: nat, trace: seq<Action>, t: State)
    requires Leads(Init(n), trace, t) && Sized(t) && Stopped(t)
    ensures AllDone(t) <==> forall i :: !Lost(t, i)
    ensures AllDone(t) ==> forall i :: 0 <= i < |t.phase| ==> t.resumes[i] == if t.prev[i] then 1 else 0
  {
    StartsAgree(n);
    RunKeepsInv(Init(n), trace, t);
    if forall i :: !Lost(t, i) { DoneUpTo(t, |t.phase|); }
    if AllDone(t) {
      forall i | 0 <= i < |t.phase| ensures t.resumes[i] == if t.prev[i] then 1 else 0 { assert Agree(t, i); }
    }
  }

  // ---- a wake-up is lost exactly by registering after the check ----

  ghost predicate Occurs(trace: seq<Action>, a: Action) {
    exists j :: 0 <= j < |trace| && trace[j] == a
  }

  /** The awaiter of `i` registered after `i` had looked for it. */
  ghost predicate Late(trace: seq<Action>, i: nat) {
    exists j, k :: 0 <= j < k < |trace| && trace[j] == CheckPrev(i) && trace[k] == Register(i + 1)
  }

  /** The awaiter of `i` registered before `i` looked for it. */
  ghost predicate InTime(trace: seq<Action>, i: nat) {
    exists j, k :: 0 <= j < k < |trace| && trace[j] == Register(i + 1) && trace[k] == CheckPrev(i)
  }

  lemma OccursLast(trace: seq<Action>, a: Action)
    requires trace != []
    ensures Occurs(trace, a) <==> Occurs(trace[..|trace| - 1], a) || trace[|trace| - 1] == a
  {
    var init := trace[..|trace| - 1];
    if Occurs(init, a) {
      var j :| 0 <= j < |init| && init[j] == a;
      assert trace[j] == a;
    }
    if Occurs(trace, a) {
      var j :| 0 <= j < |trace| && trace[j] == a;
      if j < |init| { assert init[j] == a; }
    }
  }

  lemma LateLast(trace: seq<Action>, i: nat)
    requires trace != []
    ensures var init := trace[..|trace| - 1];
            Late(trace, i) <==> Late(init, i) || (Occurs(init, CheckPrev(i)) && trace[|trace| - 1] == Register(i + 1))
  {
    var init := trace[..|trace| - 1];
    if Late(init, i) {
      var j, k :| 0 <= j < k < |init| && init[j] == CheckPrev(i) && init[k] == Register(i + 1);
      assert trace[j] == CheckPrev(i) && trace[k] == Register(i + 1);
    }
    if Occurs(init, CheckPrev(i)) && trace[|trace| - 1] == Register(i + 1) {
      var j :| 0 <= j < |init| && init[j] == CheckPrev(i);
      assert trace[j] == CheckPrev(i);
    }
    if Late(trace, i) {
      var j, k :| 0 <= j < k < |trace| && trace[j] == CheckPrev(i) && trace[k] == Register(i + 1);
      assert init[j] == CheckPrev(i);
      if k < |init| { assert init[k] == Register(i + 1); }
    }
  }

  /** What the phases say about the past of the trace, for one task and its awaiter. */
  ghost predicate Remembers(trace: seq<Action>, t: State, i: nat)
    requires Sized(t) && i + 1 < |t.phase|
  {
    && (Occurs(trace, CheckPrev(i)) <==> Checked(t.phase[i]))
    && (Occurs(trace, Register(i + 1)) <==> t.prev[i])
    && (Late(trace, i) <==> Lost(t, i))
  }

  lemma {:induction false} RunRemembers(n: nat, trace: seq<Action>, t: State, i: nat)
    requires Leads(Init(n), trace, t) && i + 1 < n
    ensures Sized(t) && |t.phase| == n && Remembers(trace, t, i)
    decreases |trace|
  {
    StartsAgree(n);
    if trace != [] {
      var init, a := trace[..|trace| - 1], trace[|trace| - 1];
      var u :| Sized(u) && Leads(Init(n), init, u) && Enabled(u, a) && t == Apply(u, a);
      RunRemembers(n, init, u, i);
      RunKeepsInv(Init(n), init, u);
      OccursLast(trace, CheckPrev(i));
      OccursLast(trace, Register(i + 1));
      LateLast(trace, i);
      StepRemembers(u, a, i);
    }
  }

  /** How one step changes what is remembered. */
  lemma StepRemembers(s: State, a: Action, i: nat)
    requires Inv(s) && Enabled(s, a) && i + 1 < |s.phase|
    ensures var t := Apply(s, a);
            && (Checked(t.phase[i]) <==> Checked(s.phase[i]) || a == CheckPrev(i))
            && (t.prev[i] <==> s.prev[i] || a == Register(i + 1))
            && (Lost(t, i) <==> Lost(s, i) || (Checked(s.phase[i]) && a == Register(i + 1)))
  {
    assert Agree(s, i) && Agree(s, i + 1);
    assert a.i < |s.phase| && Agree(s, a.i);
    if a.i > 0 { assert Agree(s, a.i - 1); }
  }

  /**
    * In any run, the awaiter of task i is lost exactly when it registered after the final
    * check of task i.
    */
  lemma LostExactlyWhenLate(n: nat, trace: seq<Action>, t: State, i: nat)
    requires Leads(Init(n), trace, t) && i + 1 < n
    ensures Sized(t) && (Lost(t, i) <==> Late(trace, i))
  {
    RunRemembers(n, trace, t, i);
  }

  /**
    * The inner task set its result and looked for its awaiter between the awaiter's ready
    * test and its registration.
    */
  ghost predicate Slipped(trace: seq<Action>, i: nat) {
    exists a: nat, b: nat, c: nat, d: nat :: SlippedAt(trace, i, a, b, c, d)
  }

  predicate SlippedAt(trace: seq<Action>, i: nat, a: nat, b: nat, c: nat, d: nat) {
    && a < b < c < d < |trace| && trace[a] == TestReady(i + 1)
    && trace[b].SetResult? && trace[b].i == i
    && trace[c] == CheckPrev(i) && trace[d] == Register(i + 1)
  }

  /** Where a task that is about to register made its ready test: the inner task had no result then. */
  lemma {:induction false} ReadyTest(n: nat, trace: seq<Action>, t: State, i: nat) returns (a: nat)
    requires Leads(Init(n), trace, t) && i + 1 < n && Sized(t) && |t.phase| == n && t.phase[i + 1].Unready?
    ensures a < |trace| && trace[a] == TestReady(i + 1) && !SetBefore(trace, a, i)
    decreases |trace|
  {
    assert trace != [];
    hide Leads, SetBefore, Inv, Apply, Enabled;
    StartsAgree(n);
    var k := |trace| - 1;
    var u := LastStep(Init(n), trace, t);
    RunKeepsInv(Init(n), trace[..k], u);
    if u.phase[i + 1].Unready? {
      a := ReadyTest(n, trace[..k], u, i);
      SetStaysInPrefix(trace, a, k, i);
    } else {
      a := k;
      ResultIsSet(Init(n), trace[..k], u, i);
      SetStaysInPrefix(trace, k, k, i);
      BecomesUnready(u, trace[k], i + 1);
    }
  }

  /** The last step of a run. */
  lemma LastStep(s: State, trace: seq<Action>, t: State) returns (u: State)
    requires Sized(s) && Leads(s, trace, t) && trace != []
    ensures Sized(u) && Leads(s, trace[..|trace| - 1], u)
    ensures Enabled(u, trace[|trace| - 1]) && t == Apply(u, trace[|trace| - 1])
  {
    u :| Sized(u) && Leads(s, trace[..|trace| - 1], u) && Enabled(u, trace[|trace| - 1]) && t == Apply(u, trace[|trace| - 1]);
  }

  lemma BecomesUnready(s: State, a: Action, j: nat)
    requires Sized(s) && Enabled(s, a) && 0 < j < |s.phase| && !s.phase[j].Unready? && Apply(s, a).phase[j].Unready?
    ensures a == TestReady(j) && !HasResult(s.phase[j - 1])
  {
  }

  lemma SetStaysInPrefix(trace: seq<Action>, k: nat, m: nat, i: nat)
    requires k <= m <= |trace|
    ensures SetBefore(trace, k, i) <==> SetBefore(trace[..m], k, i)
  {
    if SetBefore(trace, k, i) {
      var j :| 0 <= j < k && j < |trace| && trace[j].SetResult? && trace[j].i == i;
      assert trace[..m][j] == trace[j];
    }
    if SetBefore(trace[..m], k, i) {
      var j :| 0 <= j < k && j < m && trace[..m][j].SetResult? && trace[..m][j].i == i;
      assert trace[j] == trace[..m][j];
    }
  }

  /** A registration is late exactly when the inner task ended and checked since the ready test. */
  lemma LateExactlyWhenSlipped(n: nat, trace: seq<Action>, t: State, i: nat)
    requires Leads(Init(n), trace, t) && i + 1 < n
    ensures Late(trace, i) <==> Slipped(trace, i)
  {
    hide Leads, Inv;
    if Slipped(trace, i) {
      var a: nat, b: nat, c: nat, d: nat :| SlippedAt(trace, i, a, b, c, d);
      assert trace[c] == CheckPrev(i) && trace[d] == Register(i + 1);
    }
    if Late(trace, i) {
      var c: nat, d: nat :| c < d < |trace| && trace[c] == CheckPrev(i) && trace[d] == Register(i + 1);
      var a, b := FindSlip(n, trace, t, i, c, d);
    }
  }

  lemma FindSlip(n: nat, trace: seq<Action>, t: State, i: nat, c: nat, d: nat) returns (a: nat, b: nat)
    requires Leads(Init(n), trace, t) && i + 1 < n
    requires c < d < |trace| && trace[c] == CheckPrev(i) && trace[d] == Register(i + 1)
    ensures SlippedAt(trace, i, a, b, c, d)
  {
    hide Leads, SetBefore;
    StartsAgree(n);
    hide Inv;
    var u := Before(Init(n), trace, t, d);
    RunKeepsInv(Init(n), trace[..d], u);
    a := ReadyTest(n, trace[..d], u, i);
    SetStaysInPrefix(trace, a, d, i);
    var w := Before(Init(n), trace, t, c);
    ResultIsSet(Init(n), trace[..c], w, i);
    SetStaysInPrefix(trace, c, c, i);
    assert HasResult(w.phase[i]) && !HasResult(Init(n).phase[i]);
    b := SetAt(trace, a, c, i);
    assert trace[a] == trace[..d][a];
  }

  lemma SetAt(trace: seq<Action>, k: nat, m: nat, i: nat) returns (j: nat)
    requires SetBefore(trace, m, i) && !SetBefore(trace, k, i)
    ensures k <= j < m && j < |trace| && trace[j].SetResult? && trace[j].i == i
  {
    j :| 0 <= j < m && j < |trace| && trace[j].SetResult? && trace[j].i == i;
  }

  /** Every registration directly follows its ready test, as on a single-threaded executor. */
  ghost predicate BackToBack(trace: seq<Action>) {
    forall k :: 0 <= k < |trace| && trace[k].Register? ==> k > 0 && trace[k - 1] == TestReady(trace[k].i)
  }

  lemma BackToBackNotLate(n: nat, trace: seq<Action>, t: State, i: nat)
    requires Leads(Init(n), trace, t) && i + 1 < n && BackToBack(trace)
    ensures !Late(trace, i)
  {
    hide Leads;
    if Late(trace, i) {
      LateExactlyWhenSlipped(n, trace, t, i);
      var a: nat, b: nat, c: nat, d: nat :| SlippedAt(trace, i, a, b, c, d);
      assert trace[d].Register?;
      var u := Before(Init(n), trace, t, d - 1);
      assert trace[..d - 1][a] == TestReady(i + 1);
      TestedOnce(n, trace[..d - 1], u, i);
      assert false;
    }
  }

  lemma {:induction false} TestedOnce(n: nat, trace: seq<Action>, t: State, i: nat)
    requires Leads(Init(n), trace, t) && i + 1 < n && Occurs(trace, TestReady(i + 1))
    ensures Sized(t) && |t.phase| == n && !t.phase[i + 1].Starting?
    decreases |trace|
  {
    StartsAgree(n);
    RunKeepsInv(Init(n), trace, t);
    var init, last := trace[..|trace| - 1], trace[|trace| - 1];
    var u :| Sized(u) && Leads(Init(n), init, u) && Enabled(u, last) && t == Apply(u, last);
    RunKeepsInv(Init(n), init, u);
    OccursLast(trace, TestReady(i + 1));
    if Occurs(init, TestReady(i + 1)) { TestedOnce(n, init, u, i); }
  }

  /**
    * With no step between a ready test and its registration nothing is lost: such a run,
    * once it stops, has completed every task, has resumed each awaiter that registered
    * exactly once, and has written to no destroyed frame.
    */
  lemma BackToBackCompletes(n: nat, trace: seq<Action>, t: State)
    requires Leads(Init(n), trace, t) && BackToBack(trace) && Sized(t) && Stopped(t)
    ensures AllDone(t) && !t.dangling
    ensures forall i :: 0 <= i < |t.phase| ==> t.resumes[i] == if t.prev[i] then 1 else 0
  {
    StartsAgree(n);
    RunKeepsInv(Init(n), trace, t);
    forall i: nat ensures !Lost(t, i) {
      if i + 1 < n {
        LostExactlyWhenLate(n, trace, t, i);
        BackToBackNotLate(n, trace, t, i);
      }
    }
    StopsDoneOrLost(n, trace, t);
    DanglingExactly(n, trace, t);
    if t.dangling {
      var i: nat :| i < n && Orphaned(trace, i);
      OrphanedIsLate(n, trace, t, i);
      BackToBackNotLate(n, trace, t, i);
    }
  }

  /** Registering before the check is enough: when the run stops, that awaiter was resumed exactly once. */
  lemma InTimeIsResumed(n: nat, trace: seq<Action>, t: State, i: nat)
    requires Leads(Init(n), trace, t) && i + 1 < n && InTime(trace, i) && Sized(t) && Stopped(t)
    ensures CountResumes(trace, i) == 1
  {
    StartsAgree(n);
    RunKeepsInv(Init(n), trace, t);
    RunRemembers(n, trace, t, i);
    ResumesCounted(Init(n), trace, t, i);
    assert Agree(t, i) && Agree(t, i + 1);
    if !t.phase[i].Gone? { Stuck(t, i); }
    assert Occurs(trace, CheckPrev(i)) && Occurs(trace, Register(i + 1));
    assert t.phase[i].Gone?;
    if t.phase[i + 1].Suspended? {
      assert Lost(t, i);
      NotBoth(n, trace, t, i);
    }
  }

  /** A task registers at most once and checks at most once, so it is not both late and in time. */
  lemma NotBoth(n: nat, trace: seq<Action>, t: State, i: nat)
    requires Leads(Init(n), trace, t) && i + 1 < n && Late(trace, i)
    ensures !InTime(trace, i)
  {
    if InTime(trace, i) {
      var j, k :| 0 <= j < k < |trace| && trace[j] == Register(i + 1) && trace[k] == CheckPrev(i);
      var j', k' :| 0 <= j' < k' < |trace| && trace[j'] == CheckPrev(i) && trace[k'] == Register(i + 1);
      Once(n, trace, t, k, j');
      Once(n, trace, t, j, k');
      assert false;
    }
  }

  /** Checks and registrations of a task occur at most once in a run. */
  lemma {:induction false} Once(n: nat, trace: seq<Action>, t: State, j: nat, k: nat)
    requires Leads(Init(n), trace, t) && j < |trace| && k < |trace|
    requires trace[j] == trace[k] && (trace[j].CheckPrev? || trace[j].Register?)
    ensures j == k
    decreases |trace|
  {
    StartsAgree(n);
    hide Leads, Inv;
    var init, a := trace[..|trace| - 1], trace[|trace| - 1];
    var u := LastStep(Init(n), trace, t);
    if j < |init| && k < |init| {
      assert init[j] == init[k];
      Once(n, init, u, j, k);
    } else if j != k {
      var m := if j < |init| then j else k;
      assert init[m] == a && Occurs(init, a);
      NeverAgain(n, init, u, a);
      assert false;
    }
  }

  lemma NeverAgain(n: nat, trace: seq<Action>, t: State, a: Action)
    requires Leads(Init(n), trace, t) && Occurs(trace, a) && (a.CheckPrev? || a.Register?)
    ensures Sized(t) && !Enabled(t, a)
  {
    PassedByRun(n, trace, t, a);
  }

  /** The phase that a check or a registration needs is in the past. */
  predicate Passed(s: State, a: Action)
    requires Sized(s) && (a.CheckPrev? || a.Register?)
  {
    a.i < |s.phase| && if a.CheckPrev? then Checked(s.phase[a.i]) else s.phase[a.i].Suspended? || PastAwait(s.phase[a.i])
  }

  lemma PassedStays(s: State, b: Action, a: Action)
    requires Inv(s) && Enabled(s, b) && (a.CheckPrev? || a.Register?)
    ensures Passed(s, a) || a == b ==> Passed(Apply(s, b), a)
    ensures Passed(s, a) ==> !Enabled(s, a)
  {
    assert b.i < |s.phase| && Agree(s, b.i);
  }

  lemma {:induction false} PassedByRun(n: nat, trace: seq<Action>, t: State, a: Action)
    requires Leads(Init(n), trace, t) && Occurs(trace, a) && (a.CheckPrev? || a.Register?)
    ensures Sized(t) && Passed(t, a)
    decreases |trace|
  {
    StartsAgree(n);
    var init, b := trace[..|trace| - 1], trace[|trace| - 1];
    var u :| Sized(u) && Leads(Init(n), init, u) && Enabled(u, b) && t == Apply(u, b);
    RunKeepsInv(Init(n), init, u);
    OccursLast(trace, a);
    PassedStays(u, b, a);
    if b != a { PassedByRun(n, init, u, a); }
  }

  // ---- a run in which a wake-up is lost ----

  lemma LeadsOn(s: State, trace: seq<Action>, u: State, a: Action)
    requires Sized(s) && Sized(u) && Leads(s, trace, u) && Enabled(u, a)
    ensures Leads(s, trace + [a], Apply(u, a))
  {
    assert (trace + [a])[..|trace|] == trace;
  }

  /**
    * The ready test and the registration are two steps: if the inner task ends and checks
    * between them, the awaiter stays suspended for ever, and if its frame is gone by then
    * the registration writes to a destroyed frame.
    */
  lemma WakeUpCanBeLost() returns (trace: seq<Action>, t: State)
    ensures Leads(Init(2), trace, t) && Sized(t) && Stopped(t) && Lost(t, 0) && t.dangling
  {
    hide Leads, Stopped;
    var s0 := Init(2);
    var s1 := Apply(s0, TestReady(1));
    var s2 := Apply(s1, SetResult(0, Value));
    var s3 := Apply(s2, CheckPrev(0));
    var s4 := Apply(s3, Destroy(0));
    t := Apply(s4, Register(1));
    LeadsNowhere(s0);
    LeadsOn(s0, [], s0, TestReady(1));
    LeadsOn(s0, [] + [TestReady(1)], s1, SetResult(0, Value));
    LeadsOn(s0, [] + [TestReady(1)] + [SetResult(0, Value)], s2, CheckPrev(0));
    LeadsOn(s0, [] + [TestReady(1)] + [SetResult(0, Value)] + [CheckPrev(0)], s3, Destroy(0));
    LeadsOn(s0, [] + [TestReady(1)] + [SetResult(0, Value)] + [CheckPrev(0)] + [Destroy(0)], s4, Register(1));
    trace := [] + [TestReady(1)] + [SetResult(0, Value)] + [CheckPrev(0)] + [Destroy(0)] + [Register(1)];
    assert t.phase == [Gone, Suspended];
    StoppedThere(t);
  }

  lemma LeadsNowhere(s: State)
    requires Sized(s)
    ensures Leads(s, [], s)
  {
  }

  lemma StoppedThere(t: State)
    requires Sized(t) && t.phase == [Gone, Suspended]
    ensures Stopped(t)
  {
  }

  /** The frame of `i` was destroyed before its awaiter registered. */
  ghost predicate Orphaned(trace: seq<Action>, i: nat) {
    exists j, k :: 0 <= j < k < |trace| && trace[j] == Destroy(i) && trace[k] == Register(i + 1)
  }

  lemma OrphanedLast(trace: seq<Action>, i: nat)
    requires trace != []
    ensures var init := trace[..|trace| - 1];
            Orphaned(trace, i)
            <==> Orphaned(init, i) || (Occurs(init, Destroy(i)) && trace[|trace| - 1] == Register(i + 1))
  {
    var init := trace[..|trace| - 1];
    if Orphaned(init, i) {
      var j, k :| 0 <= j < k < |init| && init[j] == Destroy(i) && init[k] == Register(i + 1);
      assert trace[j] == Destroy(i) && trace[k] == Register(i + 1);
    }
    if Occurs(init, Destroy(i)) && trace[|trace| - 1] == Register(i + 1) {
      var j :| 0 <= j < |init| && init[j] == Destroy(i);
      assert trace[j] == Destroy(i);
    }
    if Orphaned(trace, i) {
      var j, k :| 0 <= j < k < |trace| && trace[j] == Destroy(i) && trace[k] == Register(i + 1);
      assert init[j] == Destroy(i);
      if k < |init| { assert init[k] == Register(i + 1); }
    }
  }

  lemma {:induction false} GoneExactly(n: nat, trace: seq<Action>, t: State, i: nat)
    requires Leads(Init(n), trace, t) && i < n
    ensures Sized(t) && |t.phase| == n && (t.phase[i].Gone? <==> Occurs(trace, Destroy(i)))
    decreases |trace|
  {
    if trace != [] {
      hide Leads;
      var u := LastStep(Init(n), trace, t);
      GoneExactly(n, trace[..|trace| - 1], u, i);
      StartsAgree(n);
      RunKeepsInv(Init(n), trace[..|trace| - 1], u);
      OccursLast(trace, Destroy(i));
      StepGone(u, trace[|trace| - 1], i);
    }
  }

  lemma StepGone(s: State, a: Action, i: nat)
    requires Inv(s) && Enabled(s, a) && i < |s.phase|
    ensures Apply(s, a).phase[i].Gone? <==> s.phase[i].Gone? || a == Destroy(i)
  {
    assert a.i < |s.phase| && Agree(s, a.i);
  }

  lemma StepDangling(s: State, a: Action)
    requires Sized(s) && Enabled(s, a)
    ensures a.Register? ==> 0 < a.i < |s.phase|
    ensures Apply(s, a).dangling <==> s.dangling || (a.Register? && s.phase[a.i - 1].Gone?)
  {
  }

  ghost predicate AnyOrphaned(trace: seq<Action>, n: nat) {
    exists i: nat :: i < n && Orphaned(trace, i)
  }

  lemma AnyOrphanedLast(n: nat, trace: seq<Action>, u: State)
    requires trace != [] && Leads(Init(n), trace[..|trace| - 1], u)
    ensures Sized(u) && |u.phase| == n
    ensures var a := trace[|trace| - 1];
            a.Register? && 0 < a.i <= n ==>
              (AnyOrphaned(trace, n) <==> AnyOrphaned(trace[..|trace| - 1], n) || u.phase[a.i - 1].Gone?)
    ensures !trace[|trace| - 1].Register? ==> (AnyOrphaned(trace, n) <==> AnyOrphaned(trace[..|trace| - 1], n))
  {
    hide Leads, Orphaned, Occurs;
    var init, a := trace[..|trace| - 1], trace[|trace| - 1];
    RunsSized(n, init, u);
    forall i: nat | i < n
      ensures Orphaned(trace, i) <==> Orphaned(init, i) || (u.phase[i].Gone? && a == Register(i + 1))
    {
      OrphanedLast(trace, i);
      GoneExactly(n, init, u, i);
    }
    if a.Register? && 0 < a.i <= n && u.phase[a.i - 1].Gone? { assert Orphaned(trace, a.i - 1); }
  }

  lemma RunsSized(n: nat, trace: seq<Action>, t: State)
    requires Leads(Init(n), trace, t)
    ensures Sized(t) && |t.phase| == n
  {
    hide Leads;
    StartsAgree(n);
    RunKeepsInv(Init(n), trace, t);
  }

  lemma NothingOrphaned(n: nat, t: State)
    requires Leads(Init(n), [], t)
    ensures !t.dangling && !AnyOrphaned([], n)
  {
  }

  /** A destroyed frame is written to exactly when an awaiter registers after its inner task is gone. */
  lemma {:induction false} DanglingExactly(n: nat, trace: seq<Action>, t: State)
    requires Leads(Init(n), trace, t)
    ensures t.dangling <==> exists i: nat :: i < n && Orphaned(trace, i)
    decreases |trace|
  {
    hide Leads, Orphaned, Apply, Enabled;
    if trace == [] {
      NothingOrphaned(n, t);
    } else {
      var u := LastStep(Init(n), trace, t);
      DanglingExactly(n, trace[..|trace| - 1], u);
      AnyOrphanedLast(n, trace, u);
      StepDangling(u, trace[|trace| - 1]);
    }
    assert AnyOrphaned(trace, n) <==> t.dangling;
  }

  /** The frame goes after the final check, so such a registration is late. */
  lemma OrphanedIsLate(n: nat, trace: seq<Action>, t: State, i: nat)
    requires Leads(Init(n), trace, t) && Orphaned(trace, i)
    ensures i + 1 < n && Late(trace, i)
  {
    hide Leads;
    var j: nat, k: nat :| j < k < |trace| && trace[j] == Destroy(i) && trace[k] == Register(i + 1);
    StartsAgree(n);
    var w := Before(Init(n), trace, t, k);
    RunKeepsInv(Init(n), trace[..k], w);
    var u := Before(Init(n), trace, t, j);
    RunRemembers(n, trace[..j], u, i);
    var c: nat :| c < j && trace[..j][c] == CheckPrev(i);
    assert trace[c] == CheckPrev(i);
  }

  lemma DanglingOnlyWhenLate(n: nat, trace: seq<Action>, t: State)
    requires Leads(Init(n), trace, t) && t.dangling
    ensures exists i: nat :: i + 1 < n && Late(trace, i)
  {
    hide Leads, Orphaned, Late;
    DanglingExactly(n, trace, t);
    var i: nat :| i < n && Orphaned(trace, i);
    OrphanedIsLate(n, trace, t, i);
  }

  /** A late registration into a frame that still lives loses the wake-up and is otherwise harmless. */
  lemma LateWithoutDangling() returns (trace: seq<Action>, t: State)
    ensures Leads(Init(2), trace, t) && Late(trace, 0) && !t.dangling
  {
    hide Leads;
    var s0 := Init(2);
    var s1 := Apply(s0, TestReady(1));
    var s2 := Apply(s1, SetResult(0, Value));
    var s3 := Apply(s2, CheckPrev(0));
    t := Apply(s3, Register(1));
    LeadsNowhere(s0);
    LeadsOn(s0, [], s0, TestReady(1));
    LeadsOn(s0, [] + [TestReady(1)], s1, SetResult(0, Value));
    LeadsOn(s0, [] + [TestReady(1)] + [SetResult(0, Value)], s2, CheckPrev(0));
    LeadsOn(s0, [] + [TestReady(1)] + [SetResult(0, Value)] + [CheckPrev(0)], s3, Register(1));
    trace := [] + [TestReady(1)] + [SetResult(0, Value)] + [CheckPrev(0)] + [Register(1)];
    assert trace[2] == CheckPrev(0) && trace[3] == Register(1);
  }

  // ---- every run ends ----

  function PhaseRank(p: Phase): (r: nat) {
    match p
    case Starting => 8
    case Unready => 7
    case Suspended => 6
    case Awake => 5
    case Running => 4
    case Ended => 3
    case Found => 2
    case Unclaimed => 1
    case Handed => 1
    case Gone => 0
  }

  function Rank(ps: seq<Phase>): (r: nat)
    ensures r <= 8 * |ps|
  {
    if ps == [] then 0 else PhaseRank(ps[0]) + Rank(ps[1..])
  }

  lemma {:induction false} RankUpdate(ps: seq<Phase>, i: nat, p: Phase)
    requires i < |ps|
    ensures Rank(ps[i := p]) == Rank(ps) - PhaseRank(ps[i]) + PhaseRank(p)
  {
    if i > 0 {
      assert ps[i := p][1..] == ps[1..][i - 1 := p];
      RankUpdate(ps[1..], i - 1, p);
    } else {
      assert ps[i := p][1..] == ps[1..];
    }
  }

  lemma StepLowersRank(s: State, a: Action)
    requires Inv(s) && Enabled(s, a)
    ensures Rank(Apply(s, a).phase) < Rank(s.phase)
  {
    assert Agree(s, a.i);
    if a.ResumePrev? {
      RankUpdate(s.phase, a.i, Handed);
      RankUpdate(s.phase[a.i := Handed], a.i + 1, Awake);
    } else {
      RankUpdate(s.phase, a.i, Apply(s, a).phase[a.i]);
    }
  }

  /** No run of n tasks has more than 8n steps. */
  lemma {:induction false} RunsEnd(s: State, trace: seq<Action>, t: State)
    requires Inv(s) && Leads(s, trace, t)
    ensures |trace| + Rank(t.phase) <= Rank(s.phase) <= 8 * |s.phase|
    decreases |trace|
  {
    if trace != [] {
      var init, a := trace[..|trace| - 1], trace[|trace| - 1];
      var u :| Sized(u) && Leads(s, init, u) && Enabled(u, a) && t == Apply(u, a);
      RunsEnd(s, init, u);
      RunKeepsInv(s, init, u);
      StepLowersRank(u, a);
    }
  }

  // ---- chains ----

  /** Nobody is about to register, and nobody is lost. */
  ghost predicate Settled(s: State)
    requires Sized(s)
  {
    && (forall i :: 0 <= i < |s.phase| ==> !s.phase[i].Starting? && !s.phase[i].Unready?)
    && (forall i :: !Lost(s, i))
  }

  lemma StepKeepsSettled(s: State, a: Action)
    requires Inv(s) && Settled(s) && Enabled(s, a)
    ensures Settled(Apply(s, a))
  {
    var t := Apply(s, a);
    forall i: nat ensures !Lost(t, i) {
      if i + 1 < |s.phase| { StepRemembers(s, a, i); }
    }
  }

  lemma {:induction false} RunKeepsSettled(s: State, trace: seq<Action>, t: State)
    requires Inv(s) && Settled(s) && Leads(s, trace, t)
    ensures Inv(t) && Settled(t)
    decreases |trace|
  {
    if trace != [] {
      var init, a := trace[..|trace| - 1], trace[|trace| - 1];
      var u :| Sized(u) && Leads(s, init, u) && Enabled(u, a) && t == Apply(u, a);
      RunKeepsSettled(s, init, u);
      StepKeepsSettled(u, a);
      StepKeepsInv(u, a);
    }
  }

  function CountSets(trace: seq<Action>, i: nat): (n: nat) {
    if trace == [] then 0
    else
      var a := trace[|trace| - 1];
      CountSets(trace[..|trace| - 1], i) + (if a.SetResult? && a.i == i then 1 else 0)
  }

  /** Results are set once: a task has its result exactly when the trace set it once. */
  lemma {:induction false} SetsCounted(s: State, trace: seq<Action>, t: State, i: nat)
    requires Inv(s) && Leads(s, trace, t) && i < |s.phase| && !HasResult(s.phase[i])
    ensures |t.phase| == |s.phase| && CountSets(trace, i) == if HasResult(t.phase[i]) then 1 else 0
    decreases |trace|
  {
    if trace != [] {
      var init, a := trace[..|trace| - 1], trace[|trace| - 1];
      var u :| Sized(u) && Leads(s, init, u) && Enabled(u, a) && t == Apply(u, a);
      SetsCounted(s, init, u, i);
      RunKeepsInv(s, init, u);
      if HasResult(u.phase[i]) { ResultStays(u, a, i); }
      if !HasResult(u.phase[i]) && HasResult(t.phase[i]) { ResultComesFromSet(u, a, i); }
    }
  }

  /**
    * Chains: from n tasks each registered on the next inner one, every run that stops has
    * completed all of them, each setting its result once, and has resumed each awaiter once.
    */
  lemma ChainCompletes(n: nat, trace: seq<Action>, t: State, i: nat)
    requires Leads(Chain(n), trace, t) && Sized(t) && Stopped(t) && i < n
    ensures AllDone(t) && CountSets(trace, i) == 1
    ensures CountResumes(trace, i) == if i + 1 < n then 1 else 0
  {
    var s := Chain(n);
    StartsAgree(n);
    RunKeepsSettled(s, trace, t);
    RunKeepsInv(s, trace, t);
    DoneUpTo(t, |t.phase|);
    SetsCounted(s, trace, t, i);
    ResumesCounted(s, trace, t, i);
    if i + 1 < n { PrevStays(s, trace, t, i); }
    assert Agree(t, i);
  }

  lemma {:induction false} PrevStays(s: State, trace: seq<Action>, t: State, i: nat)
    requires Inv(s) && Leads(s, trace, t) && i < |s.phase| && s.prev[i]
    ensures Sized(t) && |t.phase| == |s.phase| && t.prev[i]
    decreases |trace|
  {
    if trace != [] {
      var init, a := trace[..|trace| - 1], trace[|trace| - 1];
      var u :| Sized(u) && Leads(s, init, u) && Enabled(u, a) && t == Apply(u, a);
      PrevStays(s, init, u, i);
    }
  }

  // ---- endings ----

  /** No task has its result yet. */
  ghost predicate Fresh(s: State) {
    Inv(s) && forall i :: 0 <= i < |s.phase| ==> !HasResult(s.phase[i])
  }

  /** The ending on record is the one that was set, and the only one. */
  lemma {:induction false} EndingExactly(s: State, trace: seq<Action>, t: State, i: nat, e: Ending)
    requires Fresh(s) && Leads(s, trace, t) && i < |s.phase|
    ensures Sized(t) && |t.phase| == |s.phase|
    ensures Occurs(trace, SetResult(i, e)) <==> HasResult(t.phase[i]) && t.result[i] == e
    decreases |trace|
  {
    if trace != [] {
      hide Leads;
      var u := LastStep(s, trace, t);
      EndingExactly(s, trace[..|trace| - 1], u, i, e);
      RunKeepsInv(s, trace[..|trace| - 1], u);
      OccursLast(trace, SetResult(i, e));
      StepEnding(u, trace[|trace| - 1], i, e);
    }
  }

  lemma StepEnding(s: State, a: Action, i: nat, e: Ending)
    requires Inv(s) && Enabled(s, a) && i < |s.phase|
    ensures HasResult(Apply(s, a).phase[i]) && Apply(s, a).result[i] == e
       <==> (HasResult(s.phase[i]) && s.result[i] == e) || a == SetResult(i, e)
  {
    if HasResult(s.phase[i]) { ResultStays(s, a, i); }
    if !HasResult(s.phase[i]) && HasResult(Apply(s, a).phase[i]) { ResultComesFromSet(s, a, i); }
  }

  /** Task `i + 1` does not catch: as await_resume rethrows, it ends in an exception after `i` did. */
  ghost predicate Rethrows(trace: seq<Action>, i: nat) {
    forall j, k :: 0 <= j < k < |trace| && trace[j] == SetResult(i, Exception) && trace[k].SetResult? && trace[k].i == i + 1
      ==> trace[k].e == Exception
  }

  /**
    * Exceptions propagate: once a task has ended in an exception, every outer task that has
    * ended has done so too, as far out as nobody catches.
    */
  lemma {:induction false} ExceptionsPropagate(s: State, trace: seq<Action>, t: State, i: nat, j: nat)
    requires Fresh(s) && Leads(s, trace, t) && Sized(t) && |t.phase| == |s.phase| && i <= j < |s.phase|
    requires Occurs(trace, SetResult(i, Exception)) && HasResult(t.phase[j])
    requires forall k :: i <= k < j ==> Rethrows(trace, k)
    ensures t.result[j] == Exception
    decreases j
  {
    hide Leads;
    EndingExactly(s, trace, t, j, t.result[j]);
    if i == j {
      EndingExactly(s, trace, t, i, Exception);
    } else {
      var k: nat :| k < |trace| && trace[k] == SetResult(j, t.result[j]);
      ResultComesFirst(s, trace, t, k, j - 1);
      var m: nat :| m < k && trace[m].SetResult? && trace[m].i == j - 1;
      assert trace[m] == SetResult(j - 1, trace[m].e);
      EndingExactly(s, trace, t, j - 1, trace[m].e);
      ExceptionsPropagate(s, trace, t, i, j - 1);
      assert Rethrows(trace, j - 1);
    }
  }

  /** When the innermost task of a chain throws and nobody catches, all n of them end in an exception. */
  lemma ChainThrows(n: nat, trace: seq<Action>, t: State, i: nat)
    requires Leads(Chain(n), trace, t) && Sized(t) && Stopped(t) && i < n
    requires Occurs(trace, SetResult(0, Exception)) && forall k: nat :: Rethrows(trace, k)
    ensures i < |t.result| && t.result[i] == Exception
  {
    hide Leads, Rethrows;
    ChainCompletes(n, trace, t, i);
    StartsAgree(n);
    RunKeepsInv(Chain(n), trace, t);
    ExceptionsPropagate(Chain(n), trace, t, 0, i);
  }

  // ---- every ending has a run ----

  /** The chain after the `k` innermost tasks have run to their ends and gone. */
  function Midway(es: seq<Ending>, k: nat): (s: State)
    requires k <= |es|
    ensures Sized(s) && |s.phase| == |es|
  {
    var n := |es|;
    State(seq(n, i => if i < k then Gone else if i == k then Running else Suspended),
          seq(n, i => i + 1 < n),
          seq(n, i requires 0 <= i < n => if i < k then es[i] else Value),
          seq(n, i => if i < k && i + 1 < n then 1 else 0), false)
  }

  /** The steps of task `k` of `n` that are left once its body runs, up to the body of its awaiter. */
  function LastSteps(n: nat, k: nat, e: Ending): (steps: seq<Action>) {
    if k + 1 < n then [SetResult(k, e), CheckPrev(k), ResumePrev(k), Destroy(k), GetResult(k + 1)]
    else [SetResult(k, e), CheckPrev(k), Destroy(k)]
  }

  lemma {:induction false} LeadsFurther(s: State, trace: seq<Action>, u: State, steps: seq<Action>, t: State)
    requires Sized(s) && Sized(u) && Leads(s, trace, u) && Leads(u, steps, t)
    ensures Leads(s, trace + steps, t)
    decreases |steps|
  {
    hide Leads, Apply, Enabled;
    if steps == [] {
      NoSteps(u, t);
      assert trace + steps == trace;
    } else {
      var w := LastStep(u, steps, t);
      var k := |steps| - 1;
      LeadsFurther(s, trace, u, steps[..k], w);
      LeadsOn(s, trace + steps[..k], w, steps[k]);
      assert trace + steps[..k] + [steps[k]] == trace + steps;
    }
  }

  lemma NoSteps(s: State, t: State)
    requires Sized(s) && Leads(s, [], t)
    ensures s == t
  {
  }

  lemma TaskEnds(es: seq<Ending>, k: nat)
    requires k < |es|
    ensures Leads(Midway(es, k), LastSteps(|es|, k, es[k]), Midway(es, k + 1))
  {
    hide Leads;
    var s := Midway(es, k);
    var a, b := SetResult(k, es[k]), CheckPrev(k);
    LeadsNowhere(s);
    LeadsOn(s, [], s, a);
    var s1 := Apply(s, a);
    LeadsOn(s, [] + [a], s1, b);
    var s2 := Apply(s1, b);
    if k + 1 < |es| {
      var c, d, e := ResumePrev(k), Destroy(k), GetResult(k + 1);
      LeadsOn(s, [] + [a] + [b], s2, c);
      var s3 := Apply(s2, c);
      LeadsOn(s, [] + [a] + [b] + [c], s3, d);
      var s4 := Apply(s3, d);
      LeadsOn(s, [] + [a] + [b] + [c] + [d], s4, e);
      assert Apply(s4, e) == Midway(es, k + 1);
      assert [] + [a] + [b] + [c] + [d] + [e] == [a, b, c, d, e];
    } else {
      var d := Destroy(k);
      LeadsOn(s, [] + [a] + [b], s2, d);
      assert Apply(s2, d) == Midway(es, k + 1);
      assert [] + [a] + [b] + [d] == [a, b, d];
    }
  }

  lemma {:induction false} TasksEnd(es: seq<Ending>, k: nat) returns (trace: seq<Action>)
    requires k <= |es|
    ensures Leads(Chain(|es|), trace, Midway(es, k))
  {
    hide Leads;
    if k == 0 {
      assert Midway(es, 0) == Chain(|es|);
      LeadsNowhere(Chain(|es|));
      trace := [];
    } else {
      var before := TasksEnd(es, k - 1);
      TaskEnds(es, k - 1);
      LeadsFurther(Chain(|es|), before, Midway(es, k - 1), LastSteps(|es|, k - 1, es[k - 1]), Midway(es, k));
      trace := before + LastSteps(|es|, k - 1, es[k - 1]);
    }
  }

  /** An exception of task `i`, if it has an awaiter, is one of its awaiter too. */
  predicate Carries(es: seq<Ending>, i: nat) {
    i + 1 < |es| && es[i] == Exception ==> es[i + 1] == Exception
  }

  /**
    * Every ending has a run: whatever endings the members of a chain are given, some run from
    * the chain stops with exactly these, and wherever they carry an exception on from a task
    * to its awaiter, nobody in that run catches it.
    */
  lemma AnyEndings(es: seq<Ending>) returns (trace: seq<Action>, t: State)
    ensures Leads(Chain(|es|), trace, t) && Sized(t) && Stopped(t) && AllDone(t) && t.result == es
    ensures forall i :: 0 <= i < |es| ==> Occurs(trace, SetResult(i, es[i]))
    ensures forall i: nat :: Carries(es, i) ==> Rethrows(trace, i)
  {
    hide Leads, Rethrows, Carries, Inv, Occurs;
    trace := TasksEnd(es, |es|);
    t := Midway(es, |es|);
    assert t.result == es;
    var s := Chain(|es|);
    ChainIsFresh(|es|);
    forall i | 0 <= i < |es| ensures Occurs(trace, SetResult(i, es[i])) {
      EndingExactly(s, trace, t, i, es[i]);
    }
    forall i: nat | Carries(es, i) ensures Rethrows(trace, i) {
      RethrowsByResult(s, trace, t, i);
    }
  }

  lemma ChainIsFresh(n: nat)
    ensures Fresh(Chain(n))
  {
    StartsAgree(n);
    hide Inv;
  }

  /** In a run that has set both results, an exception that the results carry on was not caught. */
  lemma RethrowsByResult(s: State, trace: seq<Action>, t: State, i: nat)
    requires Fresh(s) && Leads(s, trace, t) && Sized(t) && |t.phase| == |s.phase|
    requires Carries(t.result, i)
    ensures Rethrows(trace, i)
  {
    hide Leads, Fresh;
    forall j, k | 0 <= j < k < |trace| && trace[j] == SetResult(i, Exception) && trace[k].SetResult? && trace[k].i == i + 1
      ensures trace[k].e == Exception
    {
      ActsWithin(s, trace, t, k);
      EndingExactly(s, trace, t, i, Exception);
      EndingExactly(s, trace, t, i + 1, trace[k].e);
      assert trace[k] == SetResult(i + 1, trace[k].e);
    }
  }

  lemma ActsWithin(s: State, trace: seq<Action>, t: State, k: nat)
    requires Fresh(s) && Leads(s, trace, t) && k < |trace|
    ensures trace[k].i < |s.phase|
  {
    var u := Before(s, trace, t, k);
    RunKeepsInv(s, trace[..k], u);
  }

  // ---- how a chain comes about ----

  /** The first `k` awaiters have registered. */
  function Registered(n: nat, k: nat): (s: State)
    ensures Sized(s) && |s.phase| == n
  {
    State(seq(n, i => if i == 0 then Running else if i <= k then Suspended else Starting), seq(n, i => i < k),
          seq(n, _ => Value), seq(n, _ => 0), false)
  }

  /** Tasks that test and register back to back, before the innermost has ended, make the chain. */
  lemma {:induction false} ChainForms(n: nat, k: nat) returns (trace: seq<Action>)
    requires k < n
    ensures Leads(Init(n), trace, Registered(n, k)) && BackToBack(trace)
    ensures k + 1 == n ==> Registered(n, k) == Chain(n)
  {
    hide Leads;
    if k == 0 {
      assert Registered(n, 0) == Init(n);
      LeadsNowhere(Init(n));
      trace := [];
    } else {
      var before := ChainForms(n, k - 1);
      var s := Registered(n, k - 1);
      LeadsOn(Init(n), before, s, TestReady(k));
      var u := Apply(s, TestReady(k));
      LeadsOn(Init(n), before + [TestReady(k)], u, Register(k));
      assert Apply(u, Register(k)) == Registered(n, k);
      trace := before + [TestReady(k)] + [Register(k)];
    }
    if k + 1 == n { assert Registered(n, k) == Chain(n); }
  }

  /** Such runs exist for every number of tasks and all endings, and complete every task. */
  lemma BackToBackRun(es: seq<Ending>) returns (trace: seq<Action>, t: State)
    requires es != []
    ensures Leads(Init(|es|), trace, t) && Sized(t) && Stopped(t) && AllDone(t) && t.result == es
    ensures forall i :: 0 <= i < |es| - 1 ==> t.prev[i] && t.resumes[i] == 1
  {
    hide Leads;
    var n := |es|;
    var forming := ChainForms(n, n - 1);
    var rest := TasksEnd(es, n);
    t := Midway(es, n);
    LeadsFurther(Init(n), forming, Chain(n), rest, t);
    trace := forming + rest;
    assert t.result == es;
  }
}
