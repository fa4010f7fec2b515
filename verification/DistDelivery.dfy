/**
 Who gets what, over whole runs: a message goes to exactly the pipes that were chosen for it, and what
 a pipe gets depends on nothing that happens to other pipes.
 */
module DistDelivery {
  import opened PipeArray
  import opened DistSpec

  // ---------------------------------------------------------------- choosing the pipes of a message

  /** `match` is called for each pipe of a list, as for the pipes of a subscription. */
  function MatchEach(r: Run, list: seq<Pipe>): Run {
    if list == [] then r else Apply(MatchEach(r, list[..|list| - 1]), OpMatch(list[|list| - 1]))
  }

  lemma {:induction false} MatchesEach(r: Run, list: seq<Pipe>)
    requires !r.f.more && forall p :: p in list ==> p in r.f.all
    ensures var s := MatchEach(r, list);
            && s == r.(f := s.f) && s.f == r.f.(m := s.f.m)
            && forall x :: x in s.f.m <==> x in r.f.m || (x in list && x in r.f.e)
  {
    if list != [] {
      MatchesEach(r, list[..|list| - 1]);
      assert forall x :: x in list <==> x in list[..|list| - 1] || x == list[|list| - 1];
    }
  }

  /** The first part of a message to the matching pipes. */
  lemma FirstPartReaches(r: Run, body: nat, more: bool, accepts: set<Pipe>, x: Pipe)
    requires !r.f.more
    ensures Took(Apply(r, OpSend(false, body, more, accepts)), x)
         == if x in r.f.m && x in accepts then [Part(0, body)] else []
  {
    var s := Apply(r, OpSend(false, body, more, accepts));
    assert x in s.f.m <==> x in r.f.m && x in accepts;
  }

  /**
   A message to the matching pipes reaches exactly those that were matched or named in the calls of
   `match`, are eligible, and accept it.
   */
  lemma MatchedPipesGet(ops: seq<Op>, list: seq<Pipe>, body: nat, more: bool, accepts: set<Pipe>, x: Pipe)
    requires !RunOps(ops).f.more && forall p :: p in list ==> p in RunOps(ops).f.all
    ensures var r := RunOps(ops);
            Took(Apply(MatchEach(r, list), OpSend(false, body, more, accepts)), x)
            == if x in accepts && (x in r.f.m || (x in list && x in r.f.e)) then [Part(0, body)] else []
  {
    MatchesEach(RunOps(ops), list);
    FirstPartReaches(MatchEach(RunOps(ops), list), body, more, accepts, x);
  }

  /** After `reverse_match` it reaches exactly the other eligible pipes. */
  lemma OtherPipesGet(ops: seq<Op>, list: seq<Pipe>, body: nat, more: bool, accepts: set<Pipe>, x: Pipe)
    requires !RunOps(ops).f.more && forall p :: p in list ==> p in RunOps(ops).f.all
    ensures var r := RunOps(ops);
            var s := Apply(MatchEach(r, list), OpReverseMatch);
            Took(Apply(s, OpSend(false, body, more, accepts)), x)
            == if x in accepts && x in r.f.e && x !in r.f.m && x !in list then [Part(0, body)] else []
  {
    MatchesEach(RunOps(ops), list);
    FirstPartReaches(Apply(MatchEach(RunOps(ops), list), OpReverseMatch), body, more, accepts, x);
  }

  /** After `unmatch` only the pipes that are matched anew get the next message. */
  lemma UnmatchedPipesGetNothing(ops: seq<Op>, list: seq<Pipe>, body: nat, more: bool, accepts: set<Pipe>, x: Pipe)
    requires !RunOps(ops).f.more && forall p :: p in list ==> p in RunOps(ops).f.all
    ensures var s := MatchEach(Apply(RunOps(ops), OpUnmatch), list);
            Took(Apply(s, OpSend(false, body, more, accepts)), x)
            == if x in accepts && x in list && x in RunOps(ops).f.e then [Part(0, body)] else []
  {
    var r := Apply(RunOps(ops), OpUnmatch);
    MatchesEach(r, list);
    FirstPartReaches(MatchEach(r, list), body, more, accepts, x);
  }

  /** In the middle of a message pipes that come, come back or are raised count as late until it is over. */
  lemma ComesLate(r: Run, op: Op, x: Pipe)
    requires r.f.more && Allowed(r, op)
    ensures var s := Apply(r, op);
            x in s.late <==>
              || x in r.late
              || op == OpAttach(x)
              || (op.OpActivated? && op.p == x && x !in r.f.e)
              || (op.OpActivated? && op.q == x && op.p in r.f.e && r.f.e != r.f.all)
  {
  }

  // ---------------------------------------------------------------- every pipe by itself

  /** What happens to one pipe, told without the others. `parts` and `toAll` are those of the message. */
  datatype Solo = Solo(attached: bool, eligible: bool, active: bool, matched: bool,
                       more: bool, toAll: bool, parts: nat, took: seq<Part>)

  const Nowhere := Solo(false, false, false, false, false, false, 0, [])

  /** What a call means for pipe `x`. Calls for other pipes mean nothing. */
  function Next(v: Solo, op: Op, x: Pipe): Solo {
    match op
    case OpAttach(p) =>
      if p != x || v.attached then v
      else v.(attached := true, eligible := true, active := !v.more, matched := false)
    case OpTerminated(p) =>
      if p != x || !v.attached then v
      else v.(attached := false, eligible := false, active := false, matched := false, took := [])
    case OpActivated(p, q) =>
      if p != x || !v.attached then v else v.(eligible := true, active := v.active || !v.more)
    case OpMatch(p) => if p == x && !v.more && v.eligible then v.(matched := true) else v
    case OpReverseMatch => if v.more then v else v.(matched := v.eligible && !v.matched)
    case OpUnmatch => v.(matched := false)
    case OpSend(toAll, body, more, accepts) =>
      if v.more && toAll && !v.toAll then v else NextPart(v, toAll, body, more, x in accepts)
  }

  /** A part for `x` if it is addressed: it takes the part, or it refuses and is passive from then on. */
  function NextPart(v: Solo, toAll: bool, body: nat, more: bool, accepts: bool): Solo {
    var addressed := if toAll then v.active else v.matched;
    var number := if v.more then v.parts else 0;
    var before := if v.more then v.took else [];
    v.(eligible := v.eligible && !(addressed && !accepts),
       active := (if more then v.active else v.eligible) && !(addressed && !accepts),
       matched := addressed && accepts,
       more := more, toAll := if v.more then v.toAll && toAll else toAll, parts := number + 1,
       took := if addressed && accepts then before + [Part(number, body)] else before)
  }

  function Alone(ops: seq<Op>, x: Pipe): Solo {
    if ops == [] then Nowhere else Next(Alone(ops[..|ops| - 1], x), ops[|ops| - 1], x)
  }

  function ViewOf(r: Run, x: Pipe): Solo {
    Solo(x in r.f.all, x in r.f.e, x in r.f.a, x in r.f.m, r.f.more, r.toAll, |r.parts|, Took(r, x))
  }

  /** No pipe was raised in place of another. */
  predicate Undisturbed(ops: seq<Op>) {
    ops != [] ==>
      var r, op := RunOps(ops[..|ops| - 1]), ops[|ops| - 1];
      Undisturbed(ops[..|ops| - 1]) && (op.OpActivated? ==> !Displaces(r.f, op.p))
  }

  lemma PartByItself(r: Run, toAll: bool, body: nat, more: bool, accepts: set<Pipe>, x: Pipe)
    requires InOrder(r) && (r.f.more && toAll ==> r.toAll)
    ensures ViewOf(SendPart(r, toAll, body, more, accepts), x)
            == NextPart(ViewOf(r, x), toAll, body, more, x in accepts)
  {
    var s := SendPart(r, toAll, body, more, accepts);
    var m := if toAll then r.f.a else r.f.m;
    assert s.f.m == m * accepts;
  }

  lemma StepByItself(r: Run, op: Op, x: Pipe)
    requires InOrder(r) && (op.OpActivated? ==> !Displaces(r.f, op.p))
    ensures ViewOf(Apply(r, op), x) == Next(ViewOf(r, x), op, x)
  {
    match op
    case OpSend(toAll, body, more, accepts) =>
      if Allowed(r, op) { PartByItself(r, toAll, body, more, accepts, x); }
    case _ =>
  }

  /** The account of one pipe needs no other pipe: whatever happens to others does not change what it gets. */
  lemma {:induction false} EveryPipeByItself(ops: seq<Op>, x: Pipe)
    requires Undisturbed(ops)
    ensures ViewOf(RunOps(ops), x) == Alone(ops, x)
  {
    if ops != [] {
      EveryPipeByItself(ops[..|ops| - 1], x);
      RunKeepsOrder(ops[..|ops| - 1]);
      StepByItself(RunOps(ops[..|ops| - 1]), ops[|ops| - 1], x);
    }
  }
}
