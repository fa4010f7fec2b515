/**
 Fan-out as its users see it: sets of pipes instead of places in an array. Over every run a pipe
 gets the first few parts of each message in order, or all of them.
 */
module DistSpec {
  import opened Sequences
  import opened PipeArray

  /** A part of a message, numbered from 0. */
  datatype Part = Part(number: nat, body: nat)

  /** Pipes that match, that are active, that are eligible, and all of them. */
  datatype Fan = Fan(m: set<Pipe>, a: set<Pipe>, e: set<Pipe>, all: set<Pipe>, more: bool)
  {
    ghost predicate Ok() {
      m <= a <= e <= all && (!more ==> a == e)
    }
  }

  const NoPipes := Fan({}, {}, {}, {}, false)

  function Attached(f: Fan, p: Pipe): Fan {
    f.(all := f.all + {p}, e := f.e + {p}, a := if f.more then f.a else f.a + {p})
  }

  function Matched(f: Fan, p: Pipe): Fan {
    if p in f.e then f.(m := f.m + {p}) else f
  }

  function Reversed(f: Fan): Fan {
    f.(m := f.e - f.m)
  }

  function Unmatched(f: Fan): Fan {
    f.(m := {})
  }

  function Terminated(f: Fan, p: Pipe): Fan {
    f.(m := f.m - {p}, a := f.a - {p}, e := f.e - {p}, all := f.all - {p})
  }

  function Reactivated(f: Fan, p: Pipe): Fan {
    f.(e := f.e + {p}, a := if f.more then f.a else f.a + {p})
  }

  /** Pipe `q`, which was passive, takes the place of the eligible pipe `p`, which stays eligible. */
  function Displaced(f: Fan, p: Pipe, q: Pipe): Fan {
    f.(m := Replaced(f.m, p, q), e := f.e + {q}, a := if f.more then Replaced(f.a, p, q) else f.a + {q})
  }

  /** The pipes that refuse the message leave all groups. */
  function Distributed(f: Fan, accepts: set<Pipe>): Fan {
    var refused := f.m - accepts;
    f.(m := f.m - refused, a := f.a - refused, e := f.e - refused)
  }

  /** One part is sent to the matching pipes; after the last part all eligible pipes become active. */
  function Sent(f: Fan, accepts: set<Pipe>, more: bool): Fan {
    var g := Distributed(f, accepts);
    g.(a := if more then g.a else g.e, more := more)
  }

  function SentToAll(f: Fan, accepts: set<Pipe>, more: bool): Fan {
    Sent(f.(m := f.a), accepts, more)
  }

  // ---------------------------------------------------------------- runs

  datatype Op =
    | OpAttach(p: Pipe) | OpTerminated(p: Pipe) | OpActivated(p: Pipe, q: Pipe)
    | OpMatch(p: Pipe) | OpReverseMatch | OpUnmatch
    | OpSend(toAll: bool, body: nat, more: bool, accepts: set<Pipe>)

  /**
   The fan and what has become of the current message, or of the last one if none is being sent:
   whether all its parts went to all pipes, its parts so far, the parts each pipe took, the pipes that
   came or came back since it began, and whether `unmatch` was called since then.
   */
  datatype Run = Run(f: Fan, toAll: bool, parts: seq<Part>, took: map<Pipe, seq<Part>>, late: set<Pipe>,
                     unmatched: bool)

  const Start := Run(NoPipes, false, [], map[], {}, false)

  function Took(r: Run, p: Pipe): seq<Part> {
    if p in r.took then r.took[p] else []
  }

  /** The pipes that have all parts so far. */
  function Recipients(r: Run): set<Pipe> {
    if r.toAll then r.f.a else r.f.m
  }

  /** `activated` is called for a pipe that is eligible already, and a passive pipe is raised instead. */
  predicate Displaces(f: Fan, p: Pipe) {
    p in f.e && f.e != f.all
  }

  /**
   The callers' part of the deal: matching changes only between messages, a part goes to all pipes only
   if the parts before it did, and in the middle of a message the passive pipe `q` is not raised in
   place of one that the message goes to. Otherwise `q` is any passive pipe.
   */
  predicate Allowed(r: Run, op: Op) {
    match op
    case OpAttach(p) => p !in r.f.all
    case OpTerminated(p) => p in r.f.all
    case OpActivated(p, q) =>
      p in r.f.all && (Displaces(r.f, p) ==> q in r.f.all - r.f.e && (r.f.more ==> p !in Recipients(r)))
    case OpMatch(p) => p in r.f.all && !r.f.more
    case OpReverseMatch => !r.f.more
    case OpUnmatch => true
    case OpSend(toAll, body, more, accepts) => r.f.more && toAll ==> r.toAll
  }

  /** The books of the message that the next part belongs to. */
  function Begun(r: Run, toAll: bool): Run {
    if r.f.more then r.(toAll := r.toAll && toAll) else Run(r.f, toAll, [], map[], {}, false)
  }

  function SendPart(r: Run, toAll: bool, body: nat, more: bool, accepts: set<Pipe>): Run {
    var b := Begun(r, toAll);
    var f := if toAll then SentToAll(b.f, accepts, more) else Sent(b.f, accepts, more);
    var part := Part(|b.parts|, body);
    b.(f := f, parts := b.parts + [part],
       took := map p | p in b.took.Keys + f.m :: if p in f.m then Took(b, p) + [part] else b.took[p])
  }

  function Activate(r: Run, p: Pipe, q: Pipe): Run {
    if Displaces(r.f, p) then r.(f := Displaced(r.f, p, q), late := r.late + {q})
    else r.(f := Reactivated(r.f, p), late := if p in r.f.e then r.late else r.late + {p})
  }

  function Apply(r: Run, op: Op): Run {
    if !Allowed(r, op) then r
    else
      match op
      case OpAttach(p) => r.(f := Attached(r.f, p), late := r.late + {p})
      case OpTerminated(p) => r.(f := Terminated(r.f, p), took := r.took - {p})
      case OpActivated(p, q) => Activate(r, p, q)
      case OpMatch(p) => r.(f := Matched(r.f, p))
      case OpReverseMatch => r.(f := Reversed(r.f))
      case OpUnmatch => r.(f := Unmatched(r.f), unmatched := true)
      case OpSend(toAll, body, more, accepts) => SendPart(r, toAll, body, more, accepts)
  }

  function RunOps(ops: seq<Op>): Run {
    if ops == [] then Start else Apply(RunOps(ops[..|ops| - 1]), ops[|ops| - 1])
  }

  /** Pipes have the first parts, those still addressed have all, and those that came late are not addressed. */
  ghost predicate InOrder(r: Run) {
    && r.f.Ok() && (forall i :: 0 <= i < |r.parts| ==> r.parts[i].number == i)
    && (forall p :: p in r.took ==> r.took[p] <= r.parts)
    && (r.f.more ==> forall p :: p in Recipients(r) ==> Took(r, p) == r.parts)
    && (r.f.more ==> r.late !! Recipients(r))
  }

  lemma SendKeepsOrder(r: Run, toAll: bool, body: nat, more: bool, accepts: set<Pipe>)
    requires InOrder(r) && (r.f.more && toAll ==> r.toAll)
    ensures InOrder(SendPart(r, toAll, body, more, accepts))
    ensures var s := SendPart(r, toAll, body, more, accepts);
            forall p :: p in s.f.m ==> Took(s, p) == s.parts
  {
    var b, s := Begun(r, toAll), SendPart(r, toAll, body, more, accepts);
    forall p | p in s.f.m ensures Took(b, p) == b.parts {
      if r.f.more {
        assert p in r.f.a && Took(b, p) == Took(r, p);
        assert p in Recipients(r);
      }
    }
    forall p | p in s.took ensures s.took[p] <= s.parts {
      assert Took(b, p) <= b.parts;
      assert b.parts <= s.parts;
    }
  }

  lemma ActivateKeepsOrder(r: Run, p: Pipe, q: Pipe)
    requires InOrder(r) && Allowed(r, OpActivated(p, q))
    ensures InOrder(Activate(r, p, q))
  {
    var s := Activate(r, p, q);
    assert forall x :: Took(s, x) == Took(r, x);
    if r.f.more && Displaces(r.f, p) && p in r.f.a {
      assert !r.toAll && s.f.m == r.f.m;
    }
  }

  lemma TerminatedKeepsOrder(r: Run, p: Pipe)
    requires InOrder(r) && p in r.f.all
    ensures InOrder(Apply(r, OpTerminated(p)))
  {
    var s := Apply(r, OpTerminated(p));
    assert forall q :: q != p ==> Took(s, q) == Took(r, q);
    assert Recipients(s) == Recipients(r) - {p};
  }

  lemma StepKeepsOrder(r: Run, op: Op)
    requires InOrder(r)
    ensures InOrder(Apply(r, op))
  {
    if Allowed(r, op) {
      match op
      case OpSend(toAll, body, more, accepts) => SendKeepsOrder(r, toAll, body, more, accepts);
      case OpTerminated(p) => TerminatedKeepsOrder(r, p);
      case OpActivated(p, q) => ActivateKeepsOrder(r, p, q);
      case _ =>
        assert forall q :: Took(Apply(r, op), q) == Took(r, q);
    }
  }

  lemma {:induction false} RunKeepsOrder(ops: seq<Op>)
    ensures InOrder(RunOps(ops))
  {
    if ops != [] {
      RunKeepsOrder(ops[..|ops| - 1]);
      StepKeepsOrder(RunOps(ops[..|ops| - 1]), ops[|ops| - 1]);
    }
  }

  // ---------------------------------------------------------------- who has missed a part

  ghost predicate Missed(r: Run, p: Pipe) {
    |Took(r, p)| < |r.parts|
  }

  /**
   In the middle of a message passive pipes have missed a part of it, and so have those that came late
   and, unless `unmatch` was called, active pipes that do not match.
   */
  ghost predicate Known(r: Run) {
    r.f.more ==>
      && (forall p :: p in r.f.all - r.f.e ==> Missed(r, p))
      && (!r.unmatched ==> forall p :: p in r.f.a - r.f.m ==> Missed(r, p))
  }

  lemma SendTells(r: Run, toAll: bool, body: nat, more: bool, accepts: set<Pipe>)
    requires InOrder(r) && (r.f.more && toAll ==> r.toAll)
    ensures Known(SendPart(r, toAll, body, more, accepts))
  {
    var b, s := Begun(r, toAll), SendPart(r, toAll, body, more, accepts);
    SendKeepsOrder(r, toAll, body, more, accepts);
    forall p | p !in s.f.m ensures Missed(s, p) {
      assert Took(s, p) == Took(b, p) <= b.parts;
    }
    assert s.f.Ok();
  }

  lemma StepTells(r: Run, op: Op)
    requires InOrder(r) && Known(r)
    ensures Known(Apply(r, op))
  {
    if Allowed(r, op) {
      var s := Apply(r, op);
      match op
      case OpSend(toAll, body, more, accepts) => SendTells(r, toAll, body, more, accepts);
      case OpTerminated(p) =>
        forall q | Missed(r, q) ensures Missed(s, q) { }
      case _ =>
        forall q | Missed(r, q) ensures Missed(s, q) { assert Took(s, q) == Took(r, q); }
    }
  }

  lemma {:induction false} RunTells(ops: seq<Op>)
    ensures Known(RunOps(ops))
  {
    if ops != [] {
      RunTells(ops[..|ops| - 1]);
      RunKeepsOrder(ops[..|ops| - 1]);
      StepTells(RunOps(ops[..|ops| - 1]), ops[|ops| - 1]);
    }
  }

  /** In every run every pipe has a prefix of the parts of the current message. */
  lemma PartsInOrder(ops: seq<Op>, p: Pipe)
    ensures var r := RunOps(ops); Took(r, p) <= r.parts
    ensures var f := RunOps(ops).f; f.m <= f.a <= f.e <= f.all && (!f.more ==> f.a == f.e)
  {
    RunKeepsOrder(ops);
  }

  /** A part reaches exactly the pipes that are addressed and accept it, and these have the whole message so far. */
  lemma PartReachesRecipients(ops: seq<Op>, toAll: bool, body: nat, more: bool, accepts: set<Pipe>, p: Pipe)
    requires Allowed(RunOps(ops), OpSend(toAll, body, more, accepts))
    ensures var r := RunOps(ops);
            var s, addressed := Apply(r, OpSend(toAll, body, more, accepts)), if toAll then r.f.a else r.f.m;
            && (p in addressed && p in accepts ==> Took(s, p) == s.parts && p in s.f.m)
            && (!(p in addressed && p in accepts) ==> Took(s, p) == Took(Begun(r, toAll), p))
            && (p in addressed && p !in accepts ==> p !in s.f.e)
  {
    RunKeepsOrder(ops);
    SendKeepsOrder(RunOps(ops), toAll, body, more, accepts);
  }

  /** A pipe that was attached or activated in the middle of a message gets no further part of it. */
  lemma LateGetsNothing(ops: seq<Op>, toAll: bool, body: nat, more: bool, accepts: set<Pipe>, p: Pipe)
    requires var r := RunOps(ops); r.f.more && p in r.late && Allowed(r, OpSend(toAll, body, more, accepts))
    ensures Took(Apply(RunOps(ops), OpSend(toAll, body, more, accepts)), p) == Took(RunOps(ops), p)
  {
    RunKeepsOrder(ops);
  }

  /**
   Sending a later part to all pipes when earlier ones went to the matching pipes: the parts stay in
   order exactly if every active pipe that takes the part has all parts before it.
   */
  lemma SwitchingToAllExactly(r: Run, body: nat, more: bool, accepts: set<Pipe>)
    requires InOrder(r) && r.f.more
    ensures var s := SendPart(r, true, body, more, accepts);
            (forall p :: p in s.took ==> s.took[p] <= s.parts) <==>
              (forall p :: p in r.f.a && p in accepts ==> Took(r, p) == r.parts)
  {
    var s := SendPart(r, true, body, more, accepts);
    assert forall p :: p in s.f.m <==> p in r.f.a && p in accepts;
    forall p | p in s.f.m ensures p in s.took && (s.took[p] <= s.parts <==> Took(r, p) == r.parts) {
      var k := |Took(r, p)|;
      assert Took(r, p) <= r.parts && s.took[p][k].number == |r.parts|;
      assert k < |r.parts| ==> s.parts[k].number == k;
    }
    forall p | p in s.took && p !in s.f.m ensures s.took[p] <= s.parts {
      assert r.took[p] <= r.parts <= s.parts;
    }
  }

  /**
   What a caller can check: if `unmatch` was not called since the message began, turning to all pipes
   is safe, whichever pipes accept the part, exactly if all active pipes match.
   */
  lemma SwitchingToAllIsSafeExactly(ops: seq<Op>, body: nat, more: bool)
    requires RunOps(ops).f.more && !RunOps(ops).unmatched
    ensures var r := RunOps(ops);
            (forall accepts, p :: Took(SendPart(r, true, body, more, accepts), p)
                               <= SendPart(r, true, body, more, accepts).parts) <==> r.f.m == r.f.a
  {
    var r := RunOps(ops);
    RunKeepsOrder(ops);
    RunTells(ops);
    forall accepts, p | r.f.m == r.f.a
      ensures Took(SendPart(r, true, body, more, accepts), p) <= SendPart(r, true, body, more, accepts).parts
    {
      SwitchingToAllExactly(r, body, more, accepts);
    }
    if q :| q in r.f.a && q !in r.f.m {
      TurningTears(r, body, more, q);
      assert !(Took(SendPart(r, true, body, more, {q}), q) <= SendPart(r, true, body, more, {q}).parts);
    } else {
      assert r.f.m == r.f.a;
    }
  }

  lemma TurningTears(r: Run, body: nat, more: bool, q: Pipe)
    requires InOrder(r) && r.f.more && q in r.f.a && Missed(r, q)
    ensures var t := SendPart(r, true, body, more, {q}); !(Took(t, q) <= t.parts)
  {
    var t := SendPart(r, true, body, more, {q});
    assert q in t.f.m;
    var k := |Took(r, q)|;
    assert Took(t, q)[k].number == |r.parts| && t.parts[k] == r.parts[k];
  }

  // ---------------------------------------------------------------- a passive pipe raised by mistake

  /**
   The call of `activated` that the runs leave out: in the middle of a message, for an eligible pipe,
   while `q` is passive. The parts stay in order, whatever is sent next, exactly if the message does not
   go to `p`.
   */
  lemma DisplacingIsSafeExactly(ops: seq<Op>, p: Pipe, q: Pipe, body: nat, more: bool)
    requires var r := RunOps(ops); r.f.more && p in r.f.e && q in r.f.all - r.f.e
    ensures var r := RunOps(ops);
            var s := Activate(r, p, q);
            (forall accepts, x :: Took(SendPart(s, r.toAll, body, more, accepts), x)
                               <= SendPart(s, r.toAll, body, more, accepts).parts) <==> p !in Recipients(r)
  {
    var r := RunOps(ops);
    var s := Activate(r, p, q);
    RunKeepsOrder(ops);
    RunTells(ops);
    forall accepts, x | p !in Recipients(r)
      ensures Took(SendPart(s, r.toAll, body, more, accepts), x) <= SendPart(s, r.toAll, body, more, accepts).parts
    {
      ActivateKeepsOrder(r, p, q);
      SendKeepsOrder(s, r.toAll, body, more, accepts);
    }
    if p in Recipients(r) { DisplacedTears(r, p, q, body, more); }
  }

  lemma DisplacedTears(r: Run, p: Pipe, q: Pipe, body: nat, more: bool)
    requires InOrder(r) && r.f.more && p in r.f.e && q in r.f.all - r.f.e && p in Recipients(r) && Missed(r, q)
    ensures var t := SendPart(Activate(r, p, q), r.toAll, body, more, {q}); !(Took(t, q) <= t.parts)
  {
    var s := Activate(r, p, q);
    var t := SendPart(s, r.toAll, body, more, {q});
    assert q in Recipients(s) && q in t.f.m;
    var k := |Took(r, q)|;
    assert Took(t, q)[k].number == |r.parts| && t.parts[k] == r.parts[k];
  }

  /** Pipe 1 takes the first part and pipe 2 refuses it; then pipe 2 is raised in place of pipe 1. */
  lemma DisplacingCanTear()
    ensures var r := RunOps([OpAttach(1), OpAttach(2), OpSend(true, 7, true, {1})]);
            && r.f.more && Displaces(r.f, 1) && 2 in r.f.all - r.f.e
            && Took(SendPart(Activate(r, 1, 2), true, 8, false, {2}), 2) == [Part(1, 8)]
  {
    var a, b, t := OpAttach(1), OpAttach(2), OpSend(true, 7, true, {1});
    assert [a, b, t][..2] == [a, b] && [a, b][..1] == [a] && [a][..0] == [];
    assert RunOps([]) == Start;
    var r1 := Apply(Start, a);
    assert RunOps([a]) == r1;
    var r2 := Apply(r1, b);
    assert RunOps([a, b]) == r2;
    var r := Apply(r2, t);
    assert RunOps([a, b, t]) == r;
    OneRefused(r1, r2, r);
  }

  lemma OneRefused(r1: Run, r2: Run, r: Run)
    requires r1 == Apply(Start, OpAttach(1)) && r2 == Apply(r1, OpAttach(2))
             && r == Apply(r2, OpSend(true, 7, true, {1}))
    ensures r.f.more && Displaces(r.f, 1) && 2 in r.f.all - r.f.e
    ensures Took(SendPart(Activate(r, 1, 2), true, 8, false, {2}), 2) == [Part(1, 8)]
  {
    assert r1.f == Fan({}, {1}, {1}, {1}, false);
    assert r2.f == Fan({}, {1, 2}, {1, 2}, {1, 2}, false);
    assert r.f == Fan({1}, {1}, {1}, {1, 2}, true);
    assert |r.parts| == 1 && Took(r, 2) == [];
    var s := Activate(r, 1, 2);
    assert s.f == Fan({2}, {2}, {1, 2}, {1, 2}, true);
    assert SendPart(s, true, 8, false, {2}).f.m == {2};
  }

  // ---------------------------------------------------------------- turning to all pipes: an input

  /** Pipe 2 does not match and gets the second part of a message without the first. */
  lemma SwitchingToAllCanTear()
    ensures var both := {1, 2};
            var r := RunOps([OpAttach(1), OpAttach(2), OpMatch(1), OpSend(false, 7, true, both)]);
            r.f.more && Took(SendPart(r, true, 8, false, both), 2) == [Part(1, 8)]
  {
    var a, b, m, t := OpAttach(1), OpAttach(2), OpMatch(1), OpSend(false, 7, true, {1, 2});
    assert [a, b, m, t][..3] == [a, b, m] && [a, b, m][..2] == [a, b] && [a, b][..1] == [a] && [a][..0] == [];
    assert RunOps([]) == Start;
    var r1 := Apply(Start, a);
    assert RunOps([a]) == r1;
    var r2 := Apply(r1, b);
    assert RunOps([a, b]) == r2;
    var r3 := Apply(r2, m);
    assert RunOps([a, b, m]) == r3;
    TwoAttached(r1, r2, r3);
    var r := Apply(r3, t);
    assert RunOps([a, b, m, t]) == r;
    FirstPartToOne(r3, r);
  }

  lemma TwoAttached(r1: Run, r2: Run, r3: Run)
    requires r1 == Apply(Start, OpAttach(1)) && r2 == Apply(r1, OpAttach(2)) && r3 == Apply(r2, OpMatch(1))
    ensures r3.f == Fan({1}, {1, 2}, {1, 2}, {1, 2}, false)
  {
    assert r1.f == Fan({}, {1}, {1}, {1}, false);
    assert r2.f == Fan({}, {1, 2}, {1, 2}, {1, 2}, false);
  }

  lemma FirstPartToOne(r3: Run, r: Run)
    requires r3.f == Fan({1}, {1, 2}, {1, 2}, {1, 2}, false) && r == Apply(r3, OpSend(false, 7, true, {1, 2}))
    ensures r.f.more && Took(SendPart(r, true, 8, false, {1, 2}), 2) == [Part(1, 8)]
  {
    assert r.f == Fan({1}, {1, 2}, {1, 2}, {1, 2}, true);
    assert |r.parts| == 1 && Took(r, 2) == [];
    assert SendPart(r, true, 8, false, {1, 2}).f.m == {1, 2};
  }
}
