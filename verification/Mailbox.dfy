/** The mailbox between the two processors: the Arm9 fills a parameter area and stores a request in
    one shared cell (invokeArm11Function and its callers), the Arm11 polls the cell, carries the
    request out and stores ARM11_READY (main). The steps of the two are interleaved in any way. */
module Mailbox {

  datatype Op =
    | INIT_SCREENS | SETUP_FRAMEBUFFERS | CLEAR_SCREENS | SWAP_FRAMEBUFFERS
    | UPDATE_BRIGHTNESS | DEINIT_SCREENS | PREPARE_ARM11_FOR_FIRMLAUNCH | ARM11_READY

  const PARAMS: nat := 8   // words of the parameter area

  type Area = s: seq<int> | |s| == PARAMS witness seq(PARAMS, _ => 0)

  /** A call of invokeArm11Function with the parameter words that its caller stores before it. */
  datatype Request = Request(writes: seq<(nat, int)>, op: Op)

  predicate Proper(r: Request) {
    r.op != ARM11_READY && forall i :: 0 <= i < |r.writes| ==> r.writes[i].0 < PARAMS
  }

  /** Where the Arm9 is in its current request. */
  datatype Arm9 =
    | Writing(k: nat)    // the next parameter word to store; after the last one: waits for READY
    | Storing            // has read READY, stores the request next
    | Waiting            // waits for READY again

  /** Where the Arm11 is. */
  datatype Arm11 =
    | Booting                              // has not yet stored READY for the first time
    | Polling                              // at the switch
    | Handling(op: Op, params: seq<int>)   // in a handler, which has read some of the parameter words
    | Gone                                 // in the code copied for the firmlaunch, after it has stored READY

  /** `cur` requests of the Arm9 have returned; `log` is what the Arm11 has carried out. */
  datatype State = State(cell: Op, area: Area, cur: nat, arm9: Arm9, arm11: Arm11, log: seq<(Op, seq<int>)>)

  function Step9(reqs: seq<Request>, s: State): State {
    if s.cur >= |reqs| || !Proper(reqs[s.cur]) then s
    else
      var r := reqs[s.cur];
      match s.arm9
      case Writing(k) =>
        if k < |r.writes| then s.(area := s.area[r.writes[k].0 := r.writes[k].1], arm9 := Writing(k + 1))
        else if s.cell != ARM11_READY then s
        else s.(arm9 := Storing)
      case Storing => s.(cell := r.op, arm9 := Waiting)
      case Waiting => if s.cell != ARM11_READY then s else s.(cur := s.cur + 1, arm9 := Writing(0))
  }

  function Step11(s: State): State {
    match s.arm11
    case Booting => s.(cell := ARM11_READY, arm11 := Polling)
    case Polling => if s.cell == ARM11_READY then s else s.(arm11 := Handling(s.cell, []))
    case Handling(op, params) =>
      if |params| < PARAMS then s.(arm11 := Handling(op, params + [s.area[|params|]]))
      else s.(cell := ARM11_READY, log := s.log + [(op, params)],
                   arm11 := if op == PREPARE_ARM11_FOR_FIRMLAUNCH then Gone else Polling)
    case Gone => s
  }

  datatype Processor = ARM9 | ARM11

  function Step(reqs: seq<Request>, s: State, p: Processor): State {
    if p == ARM9 then Step9(reqs, s) else Step11(s)
  }

  function Start(cell: Op, area: Area): State {
    State(cell, area, 0, Writing(0), Booting, [])
  }

  /** The state after the first `n` steps of a schedule. */
  ghost function Run(reqs: seq<Request>, s0: State, sched: nat -> Processor, n: nat): State {
    if n == 0 then s0 else Step(reqs, Run(reqs, s0, sched, n - 1), sched(n - 1))
  }

  // ------------------------------------------------------------------------------------------
  // What should happen

  /** The parameter area after the first `k` stores of a request. */
  function Filled(area: Area, writes: seq<(nat, int)>, k: nat): Area
    requires k <= |writes| && forall i :: 0 <= i < |writes| ==> writes[i].0 < PARAMS
  {
    if k == 0 then area else Filled(area, writes, k - 1)[writes[k - 1].0 := writes[k - 1].1]
  }

  /** Each word is the last one stored there, or as before. */
  lemma {:induction false} LastStored(area: Area, writes: seq<(nat, int)>, k: nat, i: nat)
    requires i < k <= |writes| && forall j :: 0 <= j < |writes| ==> writes[j].0 < PARAMS
    requires forall j :: i < j < k ==> writes[j].0 != writes[i].0
    ensures Filled(area, writes, k)[writes[i].0] == writes[i].1
  {
    if i < k - 1 {
      LastStored(area, writes, k - 1, i);
    }
  }

  lemma {:induction false} NotStored(area: Area, writes: seq<(nat, int)>, k: nat, w: nat)
    requires k <= |writes| && w < PARAMS && forall j :: 0 <= j < |writes| ==> writes[j].0 < PARAMS
    requires forall j :: 0 <= j < k ==> writes[j].0 != w
    ensures Filled(area, writes, k)[w] == area[w]
  {
    if k > 0 {
      NotStored(area, writes, k - 1, w);
    }
  }

  ghost predicate AllProper(reqs: seq<Request>) {
    forall i :: 0 <= i < |reqs| ==> Proper(reqs[i])
  }

  /** The parameter area when the first `n` requests have been prepared. */
  function AreaFor(reqs: seq<Request>, area: Area, n: nat): Area
    requires n <= |reqs| && AllProper(reqs)
  {
    if n == 0 then area else Filled(AreaFor(reqs, area, n - 1), reqs[n - 1].writes, |reqs[n - 1].writes|)
  }

  /** Exactly the first requests, in order, each with the parameters prepared for it. */
  ghost predicate Faithful(reqs: seq<Request>, area: Area, log: seq<(Op, seq<int>)>)
    requires AllProper(reqs)
  {
    |log| <= |reqs| && forall i :: 0 <= i < |log| ==> log[i] == (reqs[i].op, AreaFor(reqs, area, i + 1))
  }

  // ------------------------------------------------------------------------------------------
  // Safety

  ghost predicate Inv(reqs: seq<Request>, area: Area, s: State)
    requires AllProper(reqs)
  {
    && s.cur <= |reqs|
    && Faithful(reqs, area, s.log)
    // how far the Arm9 has got
    && (s.cur == |reqs| ==> s.arm9 == Writing(0))
    && (s.cur < |reqs| && s.arm9.Writing? ==>
          s.arm9.k <= |reqs[s.cur].writes|
              && s.area == Filled(AreaFor(reqs, area, s.cur), reqs[s.cur].writes, s.arm9.k))
    && (s.cur < |reqs| && !s.arm9.Writing? ==> s.area == AreaFor(reqs, area, s.cur + 1))
    // what the Arm11 does meanwhile
    && match s.arm11
       case Booting => s.cell != ARM11_READY && s.log == [] && s.cur == 0 && s.arm9.Writing?
       case Polling =>
         if s.arm9 == Waiting then (s.cell == ARM11_READY && |s.log| == s.cur + 1) || (s.cell == reqs[s.cur].op && |s.log| == s.cur)
         else s.cell == ARM11_READY && |s.log| == s.cur
       case Handling(op, params) =>
         && s.arm9 == Waiting && s.cell == op == reqs[s.cur].op && |s.log| == s.cur
         && |params| <= PARAMS && params == s.area[..|params|]
       case Gone =>
         && |s.log| > 0 && s.log[|s.log| - 1].0 == PREPARE_ARM11_FOR_FIRMLAUNCH
         && if s.arm9 == Waiting then (s.cell == ARM11_READY && |s.log| == s.cur + 1) || (s.cell == reqs[s.cur].op && |s.log| == s.cur)
            else s.cell == ARM11_READY && |s.log| == s.cur
  }

  lemma InvStep9(reqs: seq<Request>, area: Area, s: State)
    requires AllProper(reqs) && Inv(reqs, area, s)
    ensures Inv(reqs, area, Step9(reqs, s))
  {
  }

  lemma InvStep11(reqs: seq<Request>, area: Area, s: State)
    requires AllProper(reqs) && Inv(reqs, area, s)
    ensures Inv(reqs, area, Step11(s))
  {
    if s.arm11.Handling? && |s.arm11.params| == PARAMS {
      assert s.area[..PARAMS] == s.area;
    }
  }

  lemma {:induction false} InvRun(reqs: seq<Request>, cell: Op, area: Area, sched: nat -> Processor, n: nat)
    requires AllProper(reqs) && cell != ARM11_READY
    ensures Inv(reqs, area, Run(reqs, Start(cell, area), sched, n))
  {
    if n > 0 {
      InvRun(reqs, cell, area, sched, n - 1);
      InvStep9(reqs, area, Run(reqs, Start(cell, area), sched, n - 1));
      InvStep11(reqs, area, Run(reqs, Start(cell, area), sched, n - 1));
    }
  }

  /** Over every interleaving: the Arm11 carries out the requests of the Arm9 exactly once each, in order,
      each with its parameters; a request that has returned has been carried out; and no parameter word is
      stored while a handler is running. It takes a cell that does not hold READY at the start. */
  lemma Safety(reqs: seq<Request>, cell: Op, area: Area, sched: nat -> Processor, n: nat)
    requires AllProper(reqs) && cell != ARM11_READY
    ensures
      var s := Run(reqs, Start(cell, area), sched, n);
      && Faithful(reqs, area, s.log)
      && s.cur <= |s.log| <= s.cur + 1
      && (s.arm11.Handling? ==> Step9(reqs, s).area == s.area)
  {
    InvRun(reqs, cell, area, sched, n);
  }

  /** With READY in the cell at the start the first request can return without ever being carried out. */
  lemma ReadyTooEarly(r: Request, area: Area)
    requires Proper(r) && r.writes == []
    ensures
      var sched: nat -> Processor := n => if n == 2 then ARM11 else ARM9;
      var s := Run([r], Start(ARM11_READY, area), sched, 4);
      s.cur == 1 && s.log == [] && s.cell == ARM11_READY
  {
    var reqs := [r];
    var sched: nat -> Processor := n => if n == 2 then ARM11 else ARM9;
    var s0 := Start(ARM11_READY, area);
    var s1 := s0.(arm9 := Storing);
    assert Run(reqs, s0, sched, 0) == s0;
    assert Run(reqs, s0, sched, 1) == Step9(reqs, s0);
    assert Run(reqs, s0, sched, 2) == Step9(reqs, Step9(reqs, s0));
    assert Run(reqs, s0, sched, 3) == Step11(Step9(reqs, Step9(reqs, s0)));
    assert Run(reqs, s0, sched, 4) == Step9(reqs, Step11(Step9(reqs, Step9(reqs, s0))));
  }

  // ------------------------------------------------------------------------------------------
  // Liveness

  /** Each processor takes infinitely many steps. */
  ghost predicate Fair(sched: nat -> Processor) {
    forall n: nat, p :: Later(sched, n, p)
  }

  ghost predicate Later(sched: nat -> Processor, n: nat, p: Processor) {
    exists m: nat :: n <= m && sched(m) == p
  }

  /** After a firmlaunch request the Arm11 serves no more; it has to be the last one. */
  ghost predicate FirmlaunchLast(reqs: seq<Request>) {
    forall i :: 0 <= i < |reqs| - 1 ==> reqs[i].op != PREPARE_ARM11_FOR_FIRMLAUNCH
  }

  /** The number of steps that a request takes, waiting not counted. */
  function Cost(r: Request): nat {
    |r.writes| + PARAMS + 5
  }

  function CostFrom(reqs: seq<Request>, n: nat): nat
    decreases |reqs| - n
  {
    if n >= |reqs| then 0 else Cost(reqs[n]) + CostFrom(reqs, n + 1)
  }

  /** The number of steps left, waiting not counted. */
  ghost function Left(reqs: seq<Request>, s: State): int {
    var boot := if s.arm11 == Booting then 1 else 0;
    if s.cur >= |reqs| then boot
    else
      var here := match s.arm9
        case Writing(k) => |reqs[s.cur].writes| - k + PARAMS + 5
        case Storing => PARAMS + 4
        case Waiting =>
          if s.cell == ARM11_READY then 1
          else if s.arm11.Handling? then PARAMS - |s.arm11.params| + 2
          else PARAMS + 3;
      boot + CostFrom(reqs, s.cur + 1) + here
  }

  /** The processor that the other one may be waiting for. */
  function Needed(s: State): Processor {
    if s.arm11 == Booting || (s.arm9 == Waiting && s.cell != ARM11_READY) then ARM11 else ARM9
  }

  lemma LeftOk(reqs: seq<Request>, area: Area, s: State)
    requires AllProper(reqs) && Inv(reqs, area, s)
    ensures Left(reqs, s) >= 0
  {
  }

  /** Every step is progress or changes nothing, and a step of the processor that is needed is progress. */
  lemma Progress9(reqs: seq<Request>, area: Area, s: State)
    requires AllProper(reqs) && Inv(reqs, area, s)
    ensures Step9(reqs, s) == s || Left(reqs, Step9(reqs, s)) < Left(reqs, s)
    ensures s.cur < |reqs| && Needed(s) == ARM9 ==> Left(reqs, Step9(reqs, s)) < Left(reqs, s)
  {
  }

  lemma Progress11(reqs: seq<Request>, area: Area, s: State)
    requires AllProper(reqs) && Inv(reqs, area, s) && FirmlaunchLast(reqs)
    ensures Step11(s) == s || Left(reqs, Step11(s)) < Left(reqs, s)
    ensures s.cur < |reqs| && Needed(s) == ARM11 ==> Left(reqs, Step11(s)) < Left(reqs, s)
  {
    if s.arm11 == Gone {
      assert s.log[|s.log| - 1].0 == reqs[|s.log| - 1].op;
      assert |s.log| == |reqs|;
    }
  }

  /** Between two moments there is progress, or nothing has happened. */
  lemma {:induction false} Between(reqs: seq<Request>, cell: Op, area: Area, sched: nat -> Processor, n: nat, m: nat)
    requires AllProper(reqs) && cell != ARM11_READY && FirmlaunchLast(reqs) && n <= m
    ensures
      var s, s' := Run(reqs, Start(cell, area), sched, n), Run(reqs, Start(cell, area), sched, m);
      s' == s || Left(reqs, s') < Left(reqs, s)
    decreases m - n
  {
    hide Inv, Step9, Step11, Left;
    if n < m {
      Between(reqs, cell, area, sched, n, m - 1);
      InvRun(reqs, cell, area, sched, m - 1);
      var s := Run(reqs, Start(cell, area), sched, m - 1);
      Progress9(reqs, area, s);
      Progress11(reqs, area, s);
    }
  }

  lemma Advance(reqs: seq<Request>, cell: Op, area: Area, sched: nat -> Processor, n: nat) returns (m: nat)
    requires AllProper(reqs) && cell != ARM11_READY && FirmlaunchLast(reqs) && Fair(sched)
    requires Run(reqs, Start(cell, area), sched, n).cur < |reqs|
    ensures Left(reqs, Run(reqs, Start(cell, area), sched, m)) < Left(reqs, Run(reqs, Start(cell, area), sched, n))
  {
    hide Inv, Step9, Step11, Left, Needed;
    var s := Run(reqs, Start(cell, area), sched, n);
    assert Later(sched, n, Needed(s));
    var k: nat :| n <= k && sched(k) == Needed(s);
    Between(reqs, cell, area, sched, n, k);
    InvRun(reqs, cell, area, sched, k);
    var s1 := Run(reqs, Start(cell, area), sched, k);
    if s1 == s {
      Progress9(reqs, area, s);
      Progress11(reqs, area, s);
      m := k + 1;
    } else {
      m := k;
    }
  }

  /** Under fair scheduling every request returns. */
  lemma {:induction false} Liveness(reqs: seq<Request>, cell: Op, area: Area, sched: nat -> Processor, n: nat)
    returns (m: nat)
    requires AllProper(reqs) && cell != ARM11_READY && FirmlaunchLast(reqs) && Fair(sched)
    ensures Run(reqs, Start(cell, area), sched, m).cur == |reqs|
    decreases Left(reqs, Run(reqs, Start(cell, area), sched, n))
  {
    hide Step9, Step11, Left, Faithful, AreaFor, Filled;
    InvRun(reqs, cell, area, sched, n);
    LeftOk(reqs, area, Run(reqs, Start(cell, area), sched, n));
    if Run(reqs, Start(cell, area), sched, n).cur == |reqs| {
      m := n;
    } else {
      var k := Advance(reqs, cell, area, sched, n);
      InvRun(reqs, cell, area, sched, k);
      LeftOk(reqs, area, Run(reqs, Start(cell, area), sched, k));
      m := Liveness(reqs, cell, area, sched, k);
    }
  }

  lemma GoneStays(reqs: seq<Request>, area: Area, s: State, p: Processor, i: nat)
    requires AllProper(reqs) && Inv(reqs, area, s)
    requires i < |reqs| - 1 && reqs[i].op == PREPARE_ARM11_FOR_FIRMLAUNCH
    requires s.cur <= i + 1 && |s.log| <= i + 1 && (|s.log| == i + 1 ==> s.arm11 == Gone)
    ensures
      var s' := Step(reqs, s, p);
      s'.cur <= i + 1 && |s'.log| <= i + 1 && (|s'.log| == i + 1 ==> s'.arm11 == Gone)
  {
    hide AreaFor, Filled;
  }

  /** A request after a firmlaunch never returns: the condition on the order of requests is needed. */
  lemma {:induction false} AfterFirmlaunch(reqs: seq<Request>, cell: Op, area: Area, sched: nat -> Processor, n: nat,
                                           i: nat)
    requires AllProper(reqs) && cell != ARM11_READY
    requires i < |reqs| - 1 && reqs[i].op == PREPARE_ARM11_FOR_FIRMLAUNCH
    ensures Run(reqs, Start(cell, area), sched, n).cur <= i + 1
    ensures |Run(reqs, Start(cell, area), sched, n).log| <= i + 1
    ensures |Run(reqs, Start(cell, area), sched, n).log| == i + 1 ==>
              Run(reqs, Start(cell, area), sched, n).arm11 == Gone
  {
    hide Inv, Step, AreaFor, Filled;
    if n > 0 {
      AfterFirmlaunch(reqs, cell, area, sched, n - 1, i);
      InvRun(reqs, cell, area, sched, n - 1);
      GoneStays(reqs, area, Run(reqs, Start(cell, area), sched, n - 1), sched(n - 1), i);
    }
  }
}
