/**
 `dist_t`: fan-out of messages to pipes. The pipes stand in one array, first those that match the
 message being sent, then the other active ones, then those that are eligible but must wait for the
 next message, then the passive ones. Which pipes accept a write is decided outside: `accepts` is
 the set of pipes whose `write` succeeds now, and `slots` names the place in the queue of each pipe.
 */
module Dist {
  import opened Bytes
  import opened Sequences
  import opened PipeArray
  import opened Messages
  import opened DistSpec

  /** Places in the array, as the counters mark them. */
  ghost predicate Zones(s: seq<Pipe>, m: nat, a: nat, e: nat) {
    Distinct(s) && m <= a <= e <= |s|
  }

  /** The three swaps that make the pipe at `i`, one of the matching ones, passive. */
  function Expelled(s: seq<Pipe>, i: nat, m: nat, a: nat, e: nat): (r: seq<Pipe>)
    requires i < m <= a <= e <= |s|
  {
    Swapped(Swapped(Swapped(s, i, m - 1), m - 1, a - 1), a - 1, e - 1)
  }

  /** The pipe leaves all three groups; the matching pipes before it stay in place. */
  lemma Expels(s: seq<Pipe>, i: nat, m: nat, a: nat, e: nat)
    requires Zones(s, m, a, e) && i < m
    ensures var r := Expelled(s, i, m, a, e);
            && Zones(r, m - 1, a - 1, e - 1) && |r| == |s|
            && Front(r, m - 1) == Front(s, m) - {s[i]}
            && Front(r, a - 1) == Front(s, a) - {s[i]}
            && Front(r, e - 1) == Front(s, e) - {s[i]}
            && Front(r, |r|) == Front(s, |s|)
            && Front(r, i) == Front(s, i)
  {
    var s1 := Swapped(s, i, m - 1);
    var s2 := Swapped(s1, m - 1, a - 1);
    Leaves(s, i, m);
    SwapAside(s, i, m - 1, a);
    SwapAside(s, i, m - 1, e);
    SwapAside(s, i, m - 1, |s|);
    SwapAside(s, i, m - 1, i);
    Leaves(s1, m - 1, a);
    ExpelsOne(s1, m - 1, a, e, m - 1);
    ExpelsOne(s1, m - 1, a, e, i);
    Leaves(s2, a - 1, e);
    ExpelsOne(s2, a - 1, e, |s|, a - 1);
    ExpelsOne(s2, a - 1, e, |s|, m - 1);
    ExpelsOne(s2, a - 1, e, |s|, i);
  }

  /** Moving the item at `i` to the end of the first `a` leaves shorter and longer front parts alone. */
  lemma ExpelsOne(s: seq<Pipe>, i: nat, a: nat, e: nat, k: nat)
    requires Distinct(s) && k <= i < a <= e <= |s|
    ensures var t := Swapped(s, i, a - 1);
            Front(t, k) == Front(s, k) && Front(t, e) == Front(s, e) && Front(t, |s|) == Front(s, |s|)
  {
    SwapAside(s, i, a - 1, k);
    SwapAside(s, i, a - 1, e);
    SwapAside(s, i, a - 1, |s|);
  }

  /** Every pipe in `tried` occurs once in the list, and no other. */
  ghost predicate Listed(list: seq<Pipe>, tried: set<Pipe>) {
    Distinct(list) && forall p :: p in list <==> p in tried
  }

  /** The pipes that accept the last part of a message are flushed. */
  ghost function Flushed(tried: set<Pipe>, accepts: set<Pipe>, more: bool): set<Pipe> {
    if more then {} else tried * accepts
  }

  lemma FlushedIsMatching(m: set<Pipe>, accepts: set<Pipe>, more: bool)
    ensures Flushed(m, accepts, more) == if more then {} else m - (m - accepts)
  {
  }

  lemma FlushedNext(tried: set<Pipe>, accepts: set<Pipe>, more: bool, p: Pipe)
    ensures Flushed(tried + {p}, accepts, more)
         == Flushed(tried, accepts, more) + if p in accepts && !more then {p} else {}
  {
  }

  /** Notes the calls that were made to `p`. */
  method Note(list: seq<Pipe>, done: set<Pipe>, p: Pipe, flush: bool, ghost tried: set<Pipe>,
              ghost accepts: set<Pipe>, ghost more: bool)
    returns (attempts: seq<Pipe>, flushed: set<Pipe>)
    requires Listed(list, tried) && p !in tried && done == Flushed(tried, accepts, more)
    requires flush == (p in accepts && !more)
    ensures Listed(attempts, tried + {p}) && flushed == Flushed(tried + {p}, accepts, more)
  {
    ListedNext(list, tried, p);
    FlushedNext(tried, accepts, more, p);
    attempts := list + [p];
    flushed := if flush then done + {p} else done;
  }

  lemma ListedNext(list: seq<Pipe>, tried: set<Pipe>, p: Pipe)
    requires Listed(list, tried) && p !in tried
    ensures Listed(list + [p], tried + {p})
  {
  }

  /** The matching, active, eligible and all pipes before the message is sent. */
  datatype Groups = Groups(m: set<Pipe>, a: set<Pipe>, e: set<Pipe>, all: set<Pipe>)

  /** The pipes in `tried` were written to; those of them that accepted are the first `i`. */
  ghost predicate Progress(s: seq<Pipe>, i: nat, m: nat, a: nat, e: nat, z: Groups, tried: set<Pipe>,
                           accepts: set<Pipe>) {
    && Zones(s, m, a, e) && i <= m && tried <= z.m
    && Front(s, i) == tried * accepts
    && Front(s, m) == z.m - (tried - accepts)
    && Front(s, a) == z.a - (tried - accepts)
    && Front(s, e) == z.e - (tried - accepts)
    && Front(s, |s|) == z.all
  }

  lemma ProgressStep(s: seq<Pipe>, i: nat, m: nat, a: nat, e: nat, z: Groups, tried: set<Pipe>, accepts: set<Pipe>)
    requires Progress(s, i, m, a, e, z, tried, accepts) && i < m
    ensures var p := s[i];
            && p in z.m && p !in tried && p !in Front(s, i) && Front(s, i) <= z.m
            && Front(s, i + 1) == Front(s, i) + {p}
            && (p in accepts ==> Progress(s, i + 1, m, a, e, z, tried + {p}, accepts))
            && (p !in accepts ==> Front(Expelled(s, i, m, a, e), i) == Front(s, i)
                                  && Progress(Expelled(s, i, m, a, e), i, m - 1, a - 1, e - 1, z, tried + {p}, accepts))
  {
    var p := s[i];
    FrontGrows(s, i);
    assert p in Front(s, m);
    if p in accepts {
      assert (tried + {p}) * accepts == tried * accepts + {p};
      assert tried + {p} - accepts == tried - accepts;
    } else {
      Expels(s, i, m, a, e);
      assert (tried + {p}) * accepts == tried * accepts;
      assert tried + {p} - accepts == tried - accepts + {p};
    }
  }

  lemma ProgressDone(s: seq<Pipe>, m: nat, a: nat, e: nat, z: Groups, tried: set<Pipe>, accepts: set<Pipe>)
    requires Progress(s, m, m, a, e, z, tried, accepts)
    ensures tried == z.m && tried - accepts == z.m - accepts
  {
    assert z.m - tried <= z.m - (tried - accepts) == tried * accepts;
    assert forall p :: p in z.m ==> p in z.m - tried || p in tried;
  }

  class Dist {
    const pipes: Array
    var matching: nat
    var active: nat
    var eligible: nat
    var more: bool

    /** The counters mark places in the array. */
    ghost predicate Shape()
      reads this, pipes
    {
      && pipes.Valid() && Distinct(pipes.items)
      && matching <= eligible <= |pipes.items| && active <= eligible
    }

    ghost predicate Valid()
      reads this, pipes
    {
      Shape() && matching <= active && (!more ==> active == eligible)
    }

    ghost function All(): set<Pipe> reads this, pipes { Front(pipes.items, |pipes.items|) }

    ghost function Matching(): set<Pipe>
      requires Shape()
      reads this, pipes
    {
      Front(pipes.items, matching)
    }

    ghost function Active(): set<Pipe>
      requires Shape()
      reads this, pipes
    {
      Front(pipes.items, active)
    }

    ghost function Eligible(): set<Pipe>
      requires Shape()
      reads this, pipes
    {
      Front(pipes.items, eligible)
    }

    /** The object as its users see it. */
    ghost function View(): Fan
      requires Shape()
      reads this, pipes
    {
      Fan(Matching(), Active(), Eligible(), All(), more)
    }

    constructor ()
      ensures Valid() && View() == NoPipes && fresh(pipes)
    {
      pipes := new Array();
      matching, active, eligible, more := 0, 0, 0, false;
    }

    /** A pipe attached in the middle of a message has to wait for the next one. */
    method Attach(p: Pipe)
      requires Valid() && p !in pipes.items
      modifies this`active, this`eligible, pipes
      ensures Valid() && View() == Attached(old(View()), p)
    {
      var s := pipes.items;
      var k := if more then eligible else active;
      Attaches(s, p, matching, active, k);
      pipes.PushBack(p);
      pipes.Swap(k, |pipes.items| - 1);
      if !more { active := active + 1; }
      eligible := eligible + 1;
    }

    /**
     Only pipes that are eligible can match. In the middle of a message a pipe that waits for the next
     one must not: it would take the place of an active pipe, or match without being active.
     */
    method Match(p: Pipe)
      requires Valid() && p in pipes.items
      modifies this`matching, pipes
      ensures Shape() && View() == Matched(old(View()), p).(a := Active())
      ensures Valid() && View() == Matched(old(View()), p) <==> p in old(Active()) || p !in old(Eligible())
    {
      var s := pipes.items;
      var i := pipes.Index(p);
      PlaceTells(s, i, matching);
      PlaceTells(s, i, active);
      PlaceTells(s, i, eligible);
      if i < matching {
        assert old(Matching()) + {p} == old(Matching());
        return;
      }
      if i >= eligible { return; }
      Matches(s, i, matching, active, eligible);
      pipes.Swap(i, matching);
      matching := matching + 1;
    }

    method Unmatch()
      requires Valid()
      modifies this`matching
      ensures Valid() && matching == 0 && View() == Unmatched(old(View()))
    {
      matching := 0;
    }

    /**
     Exactly the eligible pipes that did not match before match now. In the middle of a message pipes
     that wait for the next one must not be among them.
     */
    method ReverseMatch()
      requires Valid()
      modifies this`matching, pipes
      ensures Shape() && View() == Reversed(old(View())).(a := Active())
      ensures Valid() && View() == Reversed(old(View())) <==> old(Active()) == old(Eligible())
    {
      ghost var s, f := pipes.items, View();
      var prev := matching;
      Unmatch();
      var i := prev;
      assert Matching() == {} == f.m - f.m;
      while i < eligible
        invariant prev <= i <= eligible && matching == i - prev && Shape() && |pipes.items| == |s|
        invariant pipes.items[i..] == s[i..]
        invariant Front(pipes.items, eligible) == f.e && All() == f.all
        invariant Matching() == Front(s, i) - f.m
      {
        Reverses(pipes.items, s, i, prev, eligible);
        pipes.Swap(i, matching);
        matching := matching + 1;
        i := i + 1;
      }
      ReversedExactly(s, pipes.items, prev, matching, active, eligible);
    }

    method PipeTerminated(p: Pipe)
      requires Valid() && p in pipes.items
      modifies this`matching, this`active, this`eligible, pipes
      ensures Valid() && View() == Terminated(old(View()), p)
    {
      LeaveMatching(p);
      LeaveActive(p);
      LeaveEligible(p);
      var i := pipes.Index(p);
      var s := pipes.items;
      PlaceTells(s, i, eligible);
      ErasedFront(s, i, matching);
      ErasedFront(s, i, active);
      ErasedFront(s, i, eligible);
      pipes.AllDistinct();
      ghost var j := pipes.Erase(p);
    }

    method LeaveMatching(p: Pipe)
      requires pipes.Valid() && Zones(pipes.items, matching, active, eligible) && p in pipes.items
      modifies this`matching, pipes
      ensures pipes.Valid() && Zones(pipes.items, matching, active, eligible) && All() == old(All()) && p in pipes.items
      ensures Front(pipes.items, matching) == old(Front(pipes.items, matching)) - {p}
      ensures Front(pipes.items, active) == old(Front(pipes.items, active))
      ensures Front(pipes.items, eligible) == old(Front(pipes.items, eligible))
    {
      var s := pipes.items;
      var i := pipes.Index(p);
      PlaceTells(s, i, matching);
      if i < matching {
        Leaves(s, i, matching);
        ExpelsOne(s, i, matching, active, 0);
        ExpelsOne(s, i, matching, eligible, 0);
        pipes.Swap(i, matching - 1);
        matching := matching - 1;
      }
    }

    method LeaveActive(p: Pipe)
      requires pipes.Valid() && Zones(pipes.items, matching, active, eligible) && p in pipes.items
      requires p !in Front(pipes.items, matching)
      modifies this`active, pipes
      ensures pipes.Valid() && Zones(pipes.items, matching, active, eligible) && All() == old(All()) && p in pipes.items
      ensures Front(pipes.items, matching) == old(Front(pipes.items, matching))
      ensures Front(pipes.items, active) == old(Front(pipes.items, active)) - {p}
      ensures Front(pipes.items, eligible) == old(Front(pipes.items, eligible))
      ensures active == old(active) - if p in old(Front(pipes.items, active)) then 1 else 0
    {
      var s := pipes.items;
      var i := pipes.Index(p);
      PlaceTells(s, i, matching);
      PlaceTells(s, i, active);
      if i < active {
        Leaves(s, i, active);
        ExpelsOne(s, i, active, eligible, matching);
        pipes.Swap(i, active - 1);
        active := active - 1;
      }
    }

    method LeaveEligible(p: Pipe)
      requires pipes.Valid() && Zones(pipes.items, matching, active, eligible) && p in pipes.items
      requires p !in Front(pipes.items, active)
      modifies this`eligible, pipes
      ensures pipes.Valid() && Zones(pipes.items, matching, active, eligible) && All() == old(All()) && p in pipes.items
      ensures Front(pipes.items, matching) == old(Front(pipes.items, matching))
      ensures Front(pipes.items, active) == old(Front(pipes.items, active))
      ensures Front(pipes.items, eligible) == old(Front(pipes.items, eligible)) - {p}
      ensures eligible == old(eligible) - if p in old(Front(pipes.items, eligible)) then 1 else 0
    {
      var s := pipes.items;
      var i := pipes.Index(p);
      PlaceTells(s, i, active);
      PlaceTells(s, i, eligible);
      if i < eligible {
        Leaves(s, i, eligible);
        ExpelsOne(s, i, eligible, |s|, active);
        SwapAside(s, i, eligible - 1, matching);
        pipes.Swap(i, eligible - 1);
        eligible := eligible - 1;
      }
    }

    /**
     A passive pipe can be written to again; in the middle of a message it has to wait. When the pipe
     is eligible already, because it refused a message that was not sent through this object, a passive
     pipe takes its place in the groups, although nothing can be written to it.
     */
    method Activated(p: Pipe)
      requires Valid() && p in pipes.items
      modifies this`active, this`eligible, pipes
      ensures Valid()
      ensures View() == Reactivated(old(View()), p) <==> p !in old(Eligible()) || old(Eligible()) == old(All())
      ensures p in old(Eligible()) && old(Eligible()) != old(All()) ==>
                exists q :: q in old(All()) - old(Eligible()) && View() == Displaced(old(View()), p, q)
    {
      ghost var s, f, e := pipes.items, View(), eligible;
      ghost var i := Raise(p);
      EligibleIsAll(s, e);
      if e < |s| {
        Reactivates(s, i, matching, old(active), e, more);
        assert View() == Grouped(Swapped(s, i, e), matching, active, e + 1, more);
      } else {
        PlaceTells(s, i, e);
        AllEligible(f, p);
      }
    }

    /** The swaps of `activated`. */
    method Raise(p: Pipe) returns (ghost i: nat)
      requires Valid() && p in pipes.items
      modifies this`active, this`eligible, pipes
      ensures pipes.Valid() && i < |old(pipes.items)| && old(pipes.items)[i] == p
      ensures old(eligible) == |old(pipes.items)| ==>
              pipes.items == old(pipes.items) && active == old(active) && eligible == old(eligible)
      ensures old(eligible) < |old(pipes.items)| ==>
                && pipes.items == Swapped(old(pipes.items), i, old(eligible))
                && eligible == old(eligible) + 1 && active == old(active) + if more then 0 else 1
    {
      var at := pipes.Index(p);
      i := at;
      if eligible < |pipes.items| {
        pipes.Swap(at, eligible);
        eligible := eligible + 1;
      }
      if !more && active < |pipes.items| {
        assert Swapped(pipes.items, active, active) == pipes.items;
        pipes.Swap(eligible - 1, active);
        active := active + 1;
      }
    }

    /** Writes to the pipe at `i`, one of the matching ones; a pipe that refuses becomes passive. */
    method Write(i: nat, h: Handle, ms: Messages, accepts: set<Pipe>, slots: map<Pipe, Handle>)
      returns (ok: bool, flushed: bool)
      requires Valid() && ms.Valid() && i < matching && h in ms.msgs && h !in ms.spent
      requires pipes.items[i] in slots && slots[pipes.items[i]] !in ms.msgs
      modifies this`matching, this`active, this`eligible, pipes, ms`msgs, ms`loose, ms`spent, ms`stray
      ensures Valid() && ms.Valid() && ok == (old(pipes.items[i]) in accepts)
              && flushed == (ok && !old(ms.msgs)[h].more)
      ensures ok ==>
              pipes.items == old(pipes.items) && matching == old(matching) && active == old(active)
              && eligible == old(eligible)
      ensures ok ==> ms.View() == AfterRawCopy(old(ms.View()), slots[old(pipes.items[i])], h)
      ensures !ok ==> ms.View() == old(ms.View())
      ensures !ok ==> pipes.items == Expelled(old(pipes.items), i, old(matching), old(active), old(eligible))
                      && matching == old(matching) - 1 && active == old(active) - 1 && eligible == old(eligible) - 1
    {
      var p := pipes.items[i];
      ok := p in accepts;
      flushed := false;
      if !ok {
        Expel(p, i);
        return;
      }
      flushed := !ms.msgs[h].more;
      ms.RawCopy(slots[p], h);
    }

    /** A pipe that refused a write becomes passive. */
    method Expel(p: Pipe, ghost i: nat)
      requires Valid() && i < matching && p == pipes.items[i]
      modifies this`matching, this`active, this`eligible, pipes
      ensures Valid() && pipes.items == Expelled(old(pipes.items), i, old(matching), old(active), old(eligible))
      ensures matching == old(matching) - 1 && active == old(active) - 1 && eligible == old(eligible) - 1
    {
      Expels(pipes.items, i, matching, active, eligible);
      SwappedDistinct(pipes.items, i, matching - 1);
      var k := pipes.Index(p);
      pipes.Swap(k, matching - 1);
      matching := matching - 1;
      ExpelActive(p, matching);
    }

    method ExpelActive(p: Pipe, ghost i: nat)
      requires pipes.Valid() && Distinct(pipes.items) && i < active <= eligible <= |pipes.items| && p == pipes.items[i]
      modifies this`active, this`eligible, pipes
      ensures pipes.Valid() && active == old(active) - 1 && eligible == old(eligible) - 1
      ensures pipes.items == Swapped(Swapped(old(pipes.items), i, active), active, eligible)
    {
      var k := pipes.Index(p);
      pipes.Swap(k, active - 1);
      active := active - 1;
      pipes.Swap(active, eligible - 1);
      eligible := eligible - 1;
    }

    /** One turn of the loop of `distribute`. */
    method WriteNext(i: nat, h: Handle, ms: Messages, accepts: set<Pipe>, slots: map<Pipe, Handle>,
                     ghost z: Groups, ghost tried: set<Pipe>, ghost b: Books)
      returns (ok: bool, flushed: bool)
      requires Valid() && ms.Valid() && i < matching
               && Progress(pipes.items, i, matching, active, eligible, z, tried, accepts)
      requires Sending(b, ms.View(), slots, Front(pipes.items, i), h, i)
      requires FreeSlots(b.msgs, slots, z.m) && RoomFor(b, h, i + 1)
      modifies this`matching, this`active, this`eligible, pipes, ms`msgs, ms`loose, ms`spent, ms`stray
      ensures Valid() && ms.Valid() && old(pipes.items[i]) !in tried
      ensures flushed == (old(pipes.items[i]) in accepts && !b.msgs[h].more)
      ensures matching == old(matching) - if ok then 0 else 1
      ensures var n := if ok then i + 1 else i;
              && Progress(pipes.items, n, matching, active, eligible, z, tried + {old(pipes.items[i])}, accepts)
              && Sending(b, ms.View(), slots, Front(pipes.items, n), h, n)
    {
      var p := pipes.items[i];
      ProgressStep(pipes.items, i, matching, active, eligible, z, tried, accepts);
      SendsOne(b, ms.View(), slots, z.m, Front(pipes.items, i), h, i, p);
      ok, flushed := Write(i, h, ms, accepts, slots);
    }

    /** One turn of the loop, with its counters. */
    method WriteTurn(i0: nat, failed0: nat, list: seq<Pipe>, done: set<Pipe>, h: Handle, ms: Messages,
                     accepts: set<Pipe>,
                     slots: map<Pipe, Handle>, ghost z: Groups, ghost tried0: set<Pipe>, ghost b: Books)
      returns (i: nat, failed: nat, attempts: seq<Pipe>, flushed: set<Pipe>, ghost tried: set<Pipe>)
      requires Valid() && ms.Valid() && i0 < matching
               && Progress(pipes.items, i0, matching, active, eligible, z, tried0, accepts)
      requires Sending(b, ms.View(), slots, Front(pipes.items, i0), h, i0)
      requires FreeSlots(b.msgs, slots, z.m) && RoomFor(b, h, i0 + 1)
      requires Listed(list, tried0) && done == Flushed(tried0, accepts, b.msgs[h].more)
      modifies this`matching, this`active, this`eligible, pipes, ms`msgs, ms`loose, ms`spent, ms`stray
      ensures Valid() && ms.Valid() && i <= matching && matching - i < old(matching) - i0
      ensures failed + matching == failed0 + old(matching)
      ensures Progress(pipes.items, i, matching, active, eligible, z, tried, accepts)
      ensures Sending(b, ms.View(), slots, Front(pipes.items, i), h, i)
      ensures Listed(attempts, tried) && flushed == Flushed(tried, accepts, b.msgs[h].more)
    {
      var p := pipes.items[i0];
      i, failed, tried := i0, failed0, tried0 + {p};
      var ok, flush := WriteNext(i0, h, ms, accepts, slots, z, tried0, b);
      attempts, flushed := Note(list, done, p, flush, tried0, accepts, b.msgs[h].more);
      if ok { i := i + 1; } else { failed := failed + 1; }
    }

    /**
     The loop of `distribute`: every matching pipe is written to exactly once, although pipes that
     refuse are swapped away under the loop. `attempts` lists the calls of `write` in order, `flushed`
     the pipes that were flushed.
     */
    method WriteAll(h: Handle, ms: Messages, accepts: set<Pipe>, slots: map<Pipe, Handle>)
      returns (failed: nat, attempts: seq<Pipe>, flushed: set<Pipe>)
      requires Valid() && ms.Valid() && h in ms.msgs && FreeSlots(ms.msgs, slots, Matching())
               && RoomFor(ms.View(), h, matching)
      modifies this`matching, this`active, this`eligible, pipes, ms`msgs, ms`loose, ms`spent, ms`stray
      ensures Valid() && ms.Valid() && View() == Distributed(old(View()), accepts)
      ensures matching <= old(matching) && failed == old(matching) - matching
      ensures Listed(attempts, old(Matching())) && flushed == Flushed(old(Matching()), accepts, old(ms.msgs)[h].more)
      ensures Sending(old(ms.View()), ms.View(), slots, Matching(), h, matching)
    {
      ghost var z := Groups(Matching(), Active(), Eligible(), All());
      failed, attempts, flushed := WriteLoop(h, ms, accepts, slots, z);
      ProgressDone(pipes.items, matching, active, eligible, z, z.m, accepts);
    }

    method WriteLoop(h: Handle, ms: Messages, accepts: set<Pipe>, slots: map<Pipe, Handle>, ghost z: Groups)
      returns (failed: nat, attempts: seq<Pipe>, flushed: set<Pipe>)
      requires Valid() && ms.Valid() && h in ms.msgs && FreeSlots(ms.msgs, slots, z.m)
               && RoomFor(ms.View(), h, matching)
      requires z == Groups(Matching(), Active(), Eligible(), All())
      modifies this`matching, this`active, this`eligible, pipes, ms`msgs, ms`loose, ms`spent, ms`stray
      ensures Valid() && ms.Valid() && matching <= old(matching) && failed == old(matching) - matching
      ensures Progress(pipes.items, matching, matching, active, eligible, z, z.m, accepts)
      ensures Listed(attempts, z.m) && flushed == Flushed(z.m, accepts, old(ms.msgs)[h].more)
      ensures Sending(old(ms.View()), ms.View(), slots, Front(pipes.items, matching), h, matching)
    {
      ghost var tried: set<Pipe>, b := {}, ms.View();
      var i: nat := 0;
      failed, attempts, flushed := 0, [], {};
      SendsNone(b, slots, h);
      while i < matching
        invariant i <= matching && failed + matching == old(matching) && Valid() && ms.Valid()
        invariant Progress(pipes.items, i, matching, active, eligible, z, tried, accepts)
        invariant Listed(attempts, tried) && flushed == Flushed(tried, accepts, b.msgs[h].more)
        invariant Sending(b, ms.View(), slots, Front(pipes.items, i), h, i)
        decreases matching - i
      {
        i, failed, attempts, flushed, tried :=
          WriteTurn(i, failed, attempts, flushed, h, ms, accepts, slots, z, tried, b);
      }
      ProgressDone(pipes.items, matching, active, eligible, z, tried, accepts);
    }

    method SendToMatching(h: Handle, ms: Messages, accepts: set<Pipe>, slots: map<Pipe, Handle>)
      returns (attempts: seq<Pipe>, flushed: set<Pipe>)
      requires Valid() && CanSend(ms, h, Matching()) && FreeSlots(ms.msgs, slots, Matching())
      modifies this, pipes, ms`msgs, ms`cells, ms`metas, ms`loose, ms`spent, ms`stray
      ensures Valid() && ms.Valid() && View() == Sent(old(View()), accepts, old(ms.msgs)[h].more)
      ensures Listed(attempts, old(Matching())) && flushed == Flushed(old(Matching()), accepts, old(ms.msgs)[h].more)
      ensures flushed == if old(ms.msgs)[h].more then {} else Matching()
      ensures FannedOut(old(ms.View()), ms.View(), slots, Matching(), h)
    {
      var msgMore := ms.msgs[h].more;
      attempts, flushed := Distribute(h, ms, accepts, slots);
      if !msgMore { active := eligible; }
      more := msgMore;
      assert View() == Sent(old(View()), accepts, msgMore);
    }

    method SendToAll(h: Handle, ms: Messages, accepts: set<Pipe>, slots: map<Pipe, Handle>)
      returns (attempts: seq<Pipe>, flushed: set<Pipe>)
      requires Valid() && CanSend(ms, h, Active()) && FreeSlots(ms.msgs, slots, Active())
      modifies this, pipes, ms`msgs, ms`cells, ms`metas, ms`loose, ms`spent, ms`stray
      ensures Valid() && ms.Valid() && View() == SentToAll(old(View()), accepts, old(ms.msgs)[h].more)
      ensures Listed(attempts, old(Active())) && flushed == Flushed(old(Active()), accepts, old(ms.msgs)[h].more)
      ensures flushed == if old(ms.msgs)[h].more then {} else Matching()
      ensures FannedOut(old(ms.View()), ms.View(), slots, Matching(), h)
    {
      matching := active;
      attempts, flushed := SendToMatching(h, ms, accepts, slots);
    }

    /**
     Sends the message in `h` to all matching pipes and leaves `h` empty. The references that were
     not used are given back, and the content is freed if nobody refers to it.
     */
    method Distribute(h: Handle, ms: Messages, accepts: set<Pipe>, slots: map<Pipe, Handle>)
      returns (attempts: seq<Pipe>, flushed: set<Pipe>)
      requires Valid() && CanSend(ms, h, Matching()) && FreeSlots(ms.msgs, slots, Matching())
      modifies this`matching, this`active, this`eligible, pipes, ms`msgs, ms`cells, ms`metas, ms`loose, ms`spent,
               ms`stray
      ensures Valid() && ms.Valid() && View() == Distributed(old(View()), accepts)
      ensures Listed(attempts, old(Matching())) && flushed == Flushed(old(Matching()), accepts, old(ms.msgs)[h].more)
      ensures flushed == if old(ms.msgs)[h].more then {} else Matching()
      ensures FannedOut(old(ms.View()), ms.View(), slots, Matching(), h)
    {
      attempts, flushed := [], {};
      if matching == 0 {
        DropMessage(h, ms);
        assert FannedOut(old(ms.View()), ms.View(), slots, {}, h);
        return;
      }
      NotEmpty(pipes.items, matching);
      if ms.msgs[h].kind == Vsm {
        attempts, flushed := DistributeSmall(h, ms, accepts, slots);
      } else {
        attempts, flushed := DistributeShared(h, ms, accepts, slots);
      }
      FlushedIsMatching(old(Matching()), accepts, old(ms.msgs)[h].more);
    }

    /** Closes the message and makes it an empty one. */
    method DropMessage(h: Handle, ms: Messages)
      requires ms.Valid() && ms.Owner(h) && ms.msgs[h].kind != Closed
      modifies ms`msgs, ms`cells, ms`metas, ms`spent
      ensures ms.Valid() && ms.View() == old(ms.View()).(msgs := old(ms.msgs)[h := NewMsg])
    {
      var ok := ms.Close(h);
      ms.Init(h, NewMsg);
      assert ms.spent == old(ms.spent);
    }

    /** A small message is copied as it is. */
    method DistributeSmall(h: Handle, ms: Messages, accepts: set<Pipe>, slots: map<Pipe, Handle>)
      returns (attempts: seq<Pipe>, flushed: set<Pipe>)
      requires Valid() && ms.Valid() && ms.Owner(h) && ms.msgs[h].kind == Vsm && FreeSlots(ms.msgs, slots, Matching())
      modifies this`matching, this`active, this`eligible, pipes, ms`msgs, ms`cells, ms`metas, ms`loose, ms`spent,
               ms`stray
      ensures Valid() && ms.Valid() && View() == Distributed(old(View()), accepts)
      ensures Listed(attempts, old(Matching())) && flushed == Flushed(old(Matching()), accepts, old(ms.msgs)[h].more)
      ensures FannedOut(old(ms.View()), ms.View(), slots, Matching(), h)
    {
      ghost var b := ms.View();
      var failed;
      failed, attempts, flushed := WriteAll(h, ms, accepts, slots);
      SmallSent(b, ms.View(), slots, Matching(), h, matching);
      DropMessage(h, ms);
    }

    /** A message with a content is given one reference for each pipe. */
    method DistributeShared(h: Handle, ms: Messages, accepts: set<Pipe>, slots: map<Pipe, Handle>)
      returns (attempts: seq<Pipe>, flushed: set<Pipe>)
      requires Valid() && ms.Valid() && ms.Owner(h) && ms.msgs[h].kind != Closed && ms.msgs[h].meta == None
      requires matching > 0 && FreeSlots(ms.msgs, slots, Matching())
      modifies this`matching, this`active, this`eligible, pipes, ms`msgs, ms`cells, ms`loose, ms`spent, ms`stray
      ensures Valid() && ms.Valid() && View() == Distributed(old(View()), accepts)
      ensures Listed(attempts, old(Matching())) && flushed == Flushed(old(Matching()), accepts, old(ms.msgs)[h].more)
      ensures FannedOut(old(ms.View()), ms.View(), slots, Matching(), h)
    {
      ghost var b := ms.View();
      ms.AddRefs(h, matching - 1);
      assert ms.View() == Reserved(b, h, matching);
      attempts, flushed := Spread(h, ms, accepts, slots, b);
    }

    /** `distribute` once the references are there; `b` are the books before. */
    method Spread(h: Handle, ms: Messages, accepts: set<Pipe>, slots: map<Pipe, Handle>, ghost b: Books)
      returns (attempts: seq<Pipe>, flushed: set<Pipe>)
      requires Valid() && ms.Valid() && matching > 0 && h in b.msgs && h !in b.stray && h !in b.spent
               && b.msgs[h].meta == None
      requires ms.View() == Reserved(b, h, matching) && FreeSlots(b.msgs, slots, Matching())
      modifies this`matching, this`active, this`eligible, pipes, ms`msgs, ms`cells, ms`loose, ms`spent, ms`stray
      ensures Valid() && ms.Valid() && View() == Distributed(old(View()), accepts)
      ensures Listed(attempts, old(Matching())) && flushed == Flushed(old(Matching()), accepts, b.msgs[h].more)
      ensures FannedOut(b, ms.View(), slots, Matching(), h)
    {
      ghost var n := matching;
      var failed;
      failed, attempts, flushed := WriteAll(h, ms, accepts, slots);
      GiveRestBack(h, ms, slots, failed, b, n, Matching());
    }

    /** The end of `distribute`, when the pipes in `done` have got the message. */
    method GiveRestBack(h: Handle, ms: Messages, slots: map<Pipe, Handle>, failed: nat, ghost b: Books, ghost n: nat,
                        ghost done: set<Pipe>)
      requires ms.Valid() && h in b.msgs && h !in b.stray && b.msgs[h].meta == None && 0 < n && failed <= n
      requires Sending(Reserved(b, h, n), ms.View(), slots, done, h, n - failed)
               && forall p :: p in done ==> slots[p] !in b.msgs
      modifies ms`msgs, ms`cells, ms`loose, ms`spent
      ensures ms.Valid() && FannedOut(b, ms.View(), slots, done, h)
    {
      SharedSent(b, ms.View(), slots, done, h, n, n - failed);
      GiveBack(h, ms, failed, b.loose);
    }

    /** The end of `distribute`: the references that were not used are given back, and `h` is emptied. */
    method GiveBack(h: Handle, ms: Messages, failed: nat, ghost loose: multiset<Content>)
      requires ms.Valid() && h in ms.msgs && h !in ms.stray && ms.msgs[h].meta == None
      requires Unused(ms.View(), h, failed, loose)
      modifies ms`msgs, ms`cells, ms`loose, ms`spent
      ensures ms.Valid() && ms.loose == loose && ms.spent == old(ms.spent) - {h} && ms.msgs == old(ms.msgs)[h := NewMsg]
    {
      LastOne(ms.View(), h, failed, loose);
      if failed != 0 {
        var remains := ms.RmRefs(h, failed);
      }
      Empty(h, ms, loose);
    }

    /** `init` of a handle whose reference was handed on. */
    method Empty(h: Handle, ms: Messages, ghost loose: multiset<Content>)
      requires ms.Valid() && h in ms.msgs && h !in ms.stray && ms.msgs[h].meta == None
      requires if h in ms.spent then ms.loose == loose else LooseAfter(ms.loose, ms.msgs[h], 1) == loose
      modifies ms`msgs, ms`loose, ms`spent
      ensures ms.Valid() && ms.loose == loose && ms.spent == old(ms.spent) - {h} && ms.msgs == old(ms.msgs)[h := NewMsg]
    {
      if h !in ms.spent { ms.Lend(h); }
      ms.Init(h, NewMsg);
    }
  }

  /** What is left over: `failed` references beyond those in `loose`, that of `h` included. */
  ghost predicate Unused(b: Books, h: Handle, failed: nat, loose: multiset<Content>)
    requires h in b.msgs
  {
    match ContentOf(b.msgs[h])
    case None => b.loose == loose && h !in b.spent
    case Some(c) =>
      && b.loose == loose[c := b.loose[c]]
      && b.loose[c] + (if h in b.spent then 0 else 1) == loose[c] + failed
      && (h in b.spent ==> b.loose[c] == 0)
  }

  /** After the unused references were given back, the reference of `h` is all that `loose` lacks. */
  lemma LastOne(b: Books, h: Handle, failed: nat, loose: multiset<Content>)
    requires h in b.msgs && Unused(b, h, failed, loose)
    ensures var m := b.msgs[h];
            var left := if failed == 0 then b.loose else Taken(b.loose, m, failed);
            var gone := h in b.spent || (failed > 0 && UsesUp(b.loose, m, failed));
            if gone then left == loose else LooseAfter(left, m, 1) == loose
  {
  }

  /** After the pipes in `done` took a copy of `m` each, into the slots named for them. */
  ghost predicate Copied(before: Table, after: Table, slots: map<Pipe, Handle>, done: set<Pipe>, m: Msg) {
    && done <= slots.Keys
    && (forall p :: p in done ==> slots[p] in after && after[slots[p]] == m)
    && (forall x :: x in before ==> x in after && after[x] == before[x])
    && (forall x :: x in after ==> x in before || exists p :: p in done && slots[p] == x)
  }

  /** Every pipe that may be written to has a slot of its own that is not in use. */
  ghost predicate FreeSlots(msgs: Table, slots: map<Pipe, Handle>, targets: set<Pipe>) {
    && targets <= slots.Keys
    && (forall p :: p in targets ==> slots[p] !in msgs)
    && (forall p, q :: p in targets && q in targets && p != q ==> slots[p] != slots[q])
  }

  /**
   What `distribute` asks of the message in `h`: it is open, and if it is not a small one it carries no
   metadata, as `add_refs` asserts.
   */
  ghost predicate CanSend(ms: Messages, h: Handle, targets: set<Pipe>)
    reads ms
  {
    && ms.Valid() && ms.Owner(h) && ms.msgs[h].kind != Closed
    && (targets != {} && ms.msgs[h].kind != Vsm ==> ms.msgs[h].meta == None)
  }

  lemma NotEmpty(s: seq<Pipe>, k: nat)
    requires 0 < k <= |s|
    ensures Front(s, k) != {}
  {
    assert s[0] in Front(s, k);
  }

  /** The pipes that took the message hold it, the sender holds nothing, and no reference is left over. */
  ghost predicate FannedOut(b: Books, after: Books, slots: map<Pipe, Handle>, done: set<Pipe>, h: Handle) {
    && Delivered(b.msgs, after.msgs, slots, done, h)
    && after.loose == b.loose && after.spent == b.spent
    && after.stray == b.stray + Uncounted(b.msgs[h], slots, done)
  }

  /** The copies of a message with metadata are not counted as holders of the metadata. */
  ghost function Uncounted(m: Msg, slots: map<Pipe, Handle>, done: set<Pipe>): set<Handle>
    requires done <= slots.Keys
  {
    if m.meta.Some? then set p | p in done :: slots[p] else {}
  }

  /** Every pipe in `done` got the message that was in `h`, and `h` is empty; no other handle changed. */
  ghost predicate Delivered(before: Table, after: Table, slots: map<Pipe, Handle>, done: set<Pipe>, h: Handle)
  {
    && h in before && h in after && after[h] == NewMsg && done <= slots.Keys
    && (forall p :: p in done ==> slots[p] in after && after[slots[p]].(shared := before[h].shared) == before[h])
    && (forall x :: x in before && x != h ==> x in after && after[x] == before[x])
    && (forall x :: x in after ==> x in before || exists p :: p in done && slots[p] == x)
  }

  /**
   After the fan-out the content of the message is in memory exactly if a pipe took it or somebody
   else referred to it before, and every pipe that took it is one more holder.
   */
  lemma FanOutKeepsContent(b: Books, after: Books, cells: map<Content, nat>,
                           slots: map<Pipe, Handle>, done: set<Pipe>, h: Handle, c: Content)
    requires FannedOut(b, after, slots, done, h) && FreeSlots(b.msgs, slots, done) && b.spent <= b.msgs.Keys
    requires ContentsOk(after.msgs, after.spent, after.loose, cells) && ContentOf(b.msgs[h]) == Some(c) && h !in b.spent
    ensures Holders(after.msgs, after.spent, c) == Holders(b.msgs, b.spent, c) - {h} + set p | p in done :: slots[p]
    ensures c in cells <==> done != {} || Holders(b.msgs, b.spent, c) - {h} != {} || b.loose[c] > 0
  {
    var taken, hs, t := set p | p in done :: slots[p], Holders(b.msgs, b.spent, c), Holders(after.msgs, after.spent, c);
    forall x | x in t ensures x in hs - {h} + taken {
      if x in b.msgs { assert x != h; }
    }
    forall x | x in hs - {h} + taken ensures x in t {
      if x in taken { var p :| p in done && slots[p] == x; }
    }
    assert CountOk(after.msgs, after.spent, after.loose, cells, c);
    if done != {} {
      var p :| p in done;
      assert slots[p] in taken;
    }
  }

  /**
   The metadata counters are exact after the fan-out if and only if the message carried no metadata or
   no pipe took it: the copies of a small message are not counted.
   */
  lemma FanOutCountsMetadataExactly(b: Books, after: Books, engines: multiset<Meta>, metas: map<Meta, nat>,
                                    slots: map<Pipe, Handle>, done: set<Pipe>, h: Handle)
    requires FannedOut(b, after, slots, done, h) && b.stray == {} && FreeSlots(b.msgs, slots, done)
    requires MetasOk(after.msgs, after.stray, engines, metas)
    ensures MetasOk(after.msgs, {}, engines, metas) <==> b.msgs[h].meta == None || done == {}
  {
    forall x | x in after.stray ensures x in after.msgs && after.msgs[x].meta.Some? {
      var p :| p in done && slots[p] == x;
    }
    NoneStrayExactly(after.msgs, after.stray, engines, metas);
    if b.msgs[h].meta.Some? && done != {} {
      var p :| p in done;
      assert slots[p] in after.stray;
    }
  }

  /** There are references for `n` pipes, that of `h` included. */
  ghost predicate RoomFor(b: Books, h: Handle, n: nat) {
    && h in b.msgs && h !in b.spent
    && (ContentOf(b.msgs[h]).Some? ==> b.loose[ContentOf(b.msgs[h]).value] + 1 >= n)
  }

  /** The state of the loop of `distribute` after `n` pipes, those in `done`, took a copy of `h`. */
  ghost predicate Sending(b: Books, now: Books, slots: map<Pipe, Handle>, done: set<Pipe>, h: Handle, n: nat) {
    && RoomFor(b, h, n) && Copied(b.msgs, now.msgs, slots, done, b.msgs[h])
    && now.loose == Taken(b.loose, b.msgs[h], n)
    && now.spent == (if UsesUp(b.loose, b.msgs[h], n) then b.spent + {h} else b.spent)
    && now.stray == b.stray + Uncounted(b.msgs[h], slots, done)
  }

  lemma SendsNone(b: Books, slots: map<Pipe, Handle>, h: Handle)
    requires h in b.msgs && h !in b.spent
    ensures Sending(b, b, slots, {}, h, 0)
  {
    assert Taken(b.loose, b.msgs[h], 0) == b.loose;
    assert b.stray + {} == b.stray;
  }

  lemma SendsOne(b: Books, now: Books, slots: map<Pipe, Handle>, targets: set<Pipe>, done: set<Pipe>, h: Handle,
                 n: nat, p: Pipe)
    requires FreeSlots(b.msgs, slots, targets) && done <= targets && p in targets && p !in done
    requires Sending(b, now, slots, done, h, n) && RoomFor(b, h, n + 1)
    ensures h in now.msgs && now.msgs[h] == b.msgs[h] && h !in now.spent && slots[p] !in now.msgs
    ensures Sending(b, AfterRawCopy(now, slots[p], h), slots, done + {p}, h, n + 1)
  {
    var m := b.msgs[h];
    CopiesOne(b.msgs, now.msgs, slots, targets, done, m, p);
    assert Taken(Taken(b.loose, m, n), m, 1) == Taken(b.loose, m, n + 1);
    assert Uncounted(m, slots, done + {p}) == Uncounted(m, slots, done) + if m.meta.Some? then {slots[p]} else {};
  }

  /** One reference more for every further pipe. */
  ghost function Reserved(b: Books, h: Handle, n: nat): Books
    requires h in b.msgs && n > 0
  {
    b.(msgs := b.msgs[h := Marked(b.msgs[h], n - 1)], loose := LooseAfter(b.loose, b.msgs[h], n - 1))
  }

  lemma SmallSent(b: Books, now: Books, slots: map<Pipe, Handle>, done: set<Pipe>, h: Handle, n: nat)
    requires Sending(b, now, slots, done, h, n) && ContentOf(b.msgs[h]) == None && h !in b.stray
    requires forall p :: p in done ==> slots[p] !in b.msgs
    ensures h in now.msgs && now.msgs[h] == b.msgs[h] && h !in now.spent && h !in now.stray
    ensures FannedOut(b, now.(msgs := now.msgs[h := NewMsg]), slots, done, h)
  {
    Deliveries(b.msgs, now.msgs, slots, done, h);
  }

  lemma SharedSent(b: Books, now: Books, slots: map<Pipe, Handle>, done: set<Pipe>, h: Handle, n: nat, taken: nat)
    requires h in b.msgs && h !in b.stray && b.msgs[h].meta == None && 0 < n && taken <= n
    requires Sending(Reserved(b, h, n), now, slots, done, h, taken) && forall p :: p in done ==> slots[p] !in b.msgs
    ensures h in now.msgs && now.msgs[h].meta == None && now.stray == b.stray
    ensures Unused(now, h, n - taken, b.loose) && now.spent - {h} == b.spent
    ensures Delivered(b.msgs, now.msgs[h := NewMsg], slots, done, h)
  {
    var r := Reserved(b, h, n);
    Deliveries(r.msgs, now.msgs, slots, done, h);
    Delivers(b.msgs, r.msgs, now.msgs[h := NewMsg], slots, done, h);
  }

  lemma Deliveries(before: Table, sent: Table, slots: map<Pipe, Handle>, done: set<Pipe>, h: Handle)
    requires h in before && Copied(before, sent, slots, done, before[h])
    requires forall p :: p in done ==> slots[p] !in before
    ensures Delivered(before, sent[h := NewMsg], slots, done, h)
  {
  }

  lemma Delivers(before: Table, mid: Table, after: Table, slots: map<Pipe, Handle>, done: set<Pipe>, h: Handle)
    requires h in before && h in mid && mid == before[h := mid[h]] && mid[h].(shared := before[h].shared) == before[h]
    requires Delivered(mid, after, slots, done, h)
    ensures Delivered(before, after, slots, done, h)
  {
  }

  lemma CopiesOne(before: Table, after: Table, slots: map<Pipe, Handle>, targets: set<Pipe>, done: set<Pipe>, m: Msg,
                  p: Pipe)
    requires FreeSlots(before, slots, targets) && done <= targets && p in targets && p !in done
    requires Copied(before, after, slots, done, m)
    ensures slots[p] !in after && Copied(before, after[slots[p] := m], slots, done + {p}, m)
  {
    var next := after[slots[p] := m];
    forall x | x in next ensures x in before || exists q :: q in done + {p} && slots[q] == x {
      if x == slots[p] { assert p in done + {p}; }
    }
    forall q | q in done + {p} ensures slots[q] in next && next[slots[q]] == m {
      if q != p { assert q in done; }
    }
  }

  /** The swap of `match`: the pipe at `i`, which is eligible and does not match, takes the next matching place. */
  lemma Matches(s: seq<Pipe>, i: nat, m: nat, a: nat, e: nat)
    requires Zones(s, m, a, e) && m <= i < e
    ensures var t := Swapped(s, i, m);
            && Distinct(t) && Front(t, m + 1) == Front(s, m) + {s[i]}
            && Front(t, e) == Front(s, e) && Front(t, |s|) == Front(s, |s|)
            && (m + 1 <= a && Front(t, a) == Front(s, a) <==> i < a)
  {
    var t := Swapped(s, i, m);
    Joins(s, i, m);
    SwapAside(s, i, m, e);
    SwapAside(s, i, m, |s|);
    if i < a {
      SwapAside(s, i, m, a);
    } else if m < a {
      assert t[m] == s[i] && t[m] in Front(t, a);
    }
  }

  /** One turn of the loop of `reverse_match` on the array `s`, which was `before` at first. */
  lemma Reverses(s: seq<Pipe>, before: seq<Pipe>, i: nat, prev: nat, e: nat)
    requires Distinct(s) && Distinct(before) && |s| == |before| && prev <= i < e <= |s| && s[i..] == before[i..]
    requires Front(s, i - prev) == Front(before, i) - Front(before, prev)
    ensures var t := Swapped(s, i, i - prev);
            && Distinct(t) && Front(t, e) == Front(s, e) && Front(t, |s|) == Front(s, |s|)
            && t[i + 1..] == before[i + 1..]
            && Front(t, i - prev + 1) == Front(before, i + 1) - Front(before, prev)
  {
    var k := i - prev;
    assert s[i] == s[i..][0] == before[i];
    Joins(s, i, k);
    SwapAside(s, i, k, e);
    SwapAside(s, i, k, |s|);
    FrontGrows(before, i);
    FrontNests(before, prev, i);
    assert Swapped(s, i, k)[i + 1..] == s[i..][1..] && before[i + 1..] == before[i..][1..];
  }

  lemma ReversedExactly(s: seq<Pipe>, t: seq<Pipe>, prev: nat, m: nat, a: nat, e: nat)
    requires Zones(s, prev, a, e) && Distinct(t) && |t| == |s| && m <= e
    requires Front(t, e) == Front(s, e) && Front(t, m) == Front(s, e) - Front(s, prev)
    ensures m <= a && Front(t, a) == Front(s, a) <==> Front(s, a) == Front(s, e)
  {
    if a < e {
      FrontNests(s, prev, a);
      PlaceTells(s, a, a);
      PlaceTells(s, a, e);
      PlaceTells(s, a, prev);
      if m <= a { FrontNests(t, m, a); }
    }
  }

  lemma EligibleIsAll(s: seq<Pipe>, e: nat)
    requires Distinct(s) && e <= |s|
    ensures Front(s, e) == Front(s, |s|) <==> e == |s|
  {
    if e < |s| {
      PlaceTells(s, e, e);
      PlaceTells(s, e, |s|);
    }
  }

  /** `activated` for a passive pipe. */
  lemma Activates(s: seq<Pipe>, i: nat, m: nat, a: nat, e: nat)
    requires Zones(s, m, a, e) && e <= i < |s|
    ensures var t := Swapped(s, i, e);
            && Distinct(t) && Front(t, e + 1) == Front(s, e) + {s[i]} && Front(t, |s|) == Front(s, |s|)
            && Front(t, m) == Front(s, m) && Front(t, a) == Front(s, a)
  {
    Joins(s, i, e);
    SwapAside(s, i, e, m);
    SwapAside(s, i, e, a);
    SwapAside(s, i, e, |s|);
  }

  /** `activated` for a pipe that is eligible: the first passive pipe takes its place. */
  lemma Displaces(s: seq<Pipe>, i: nat, m: nat, a: nat, e: nat)
    requires Zones(s, m, a, e) && i < e < |s|
    ensures var t, p, q := Swapped(s, i, e), s[i], s[e];
            && q !in Front(s, e) && q in Front(s, |s|)
            && Distinct(t) && Front(t, e + 1) == Front(s, e) + {q} && Front(t, |s|) == Front(s, |s|)
            && Front(t, m) == Replaced(Front(s, m), p, q) && Front(t, a) == Replaced(Front(s, a), p, q)
  {
    var t := Swapped(s, i, e);
    SwappedDistinct(s, i, e);
    FrontGrows(s, e);
    PlaceTells(s, e, |s|);
    SwapAside(s, i, e, e + 1);
    SwapAside(s, i, e, |s|);
    DisplacesOne(s, i, e, m);
    DisplacesOne(s, i, e, a);
  }

  lemma DisplacesOne(s: seq<Pipe>, i: nat, e: nat, k: nat)
    requires Distinct(s) && i < |s| && k <= e < |s|
    ensures Front(Swapped(s, i, e), k) == Replaced(Front(s, k), s[i], s[e])
  {
    PlaceTells(s, i, k);
    if i < k { SwapAcross(s, i, e, k); } else { SwapAside(s, i, e, k); }
  }

  /** The groups that the counters mark. */
  ghost function Grouped(s: seq<Pipe>, m: nat, a: nat, e: nat, more: bool): Fan
    requires m <= |s| && a <= |s| && e <= |s|
  {
    Fan(Front(s, m), Front(s, a), Front(s, e), Front(s, |s|), more)
  }

  /** `activated` while there is a passive pipe. */
  lemma Reactivates(s: seq<Pipe>, i: nat, m: nat, a: nat, e: nat, more: bool)
    requires Zones(s, m, a, e) && i < |s| && e < |s| && (!more ==> a == e)
    ensures var t := Swapped(s, i, e);
            && Zones(t, m, if more then a else a + 1, e + 1) && Swapped(t, e, e) == t
            && var f, g := Grouped(s, m, a, e, more), Grouped(t, m, if more then a else a + 1, e + 1, more);
               && f.e != f.all
               && (s[i] !in f.e ==> g == Reactivated(f, s[i]))
               && (s[i] in f.e ==> s[e] in f.all - f.e && g == Displaced(f, s[i], s[e]) && g != Reactivated(f, s[i]))
  {
    PlaceTells(s, i, e);
    PlaceTells(s, e, e);
    PlaceTells(s, e, |s|);
    if i >= e { Activates(s, i, m, a, e); } else { Displaces(s, i, m, a, e); }
  }

  lemma AllEligible(f: Fan, p: Pipe)
    requires f.Ok() && p in f.e
    ensures Reactivated(f, p) == f
  {
    assert f.e + {p} == f.e;
  }

  lemma PlaceTells(s: seq<Pipe>, i: nat, k: nat)
    requires Distinct(s) && i < |s| && k <= |s|
    ensures i < k <==> s[i] in Front(s, k)
  {
  }

  lemma Attaches(s: seq<Pipe>, p: Pipe, m: nat, a: nat, k: nat)
    requires Distinct(s) && p !in s && m <= a <= k <= |s|
    ensures var t := Swapped(s + [p], k, |s|);
            && Distinct(t) && Front(t, m) == Front(s, m) && Front(t, a) == Front(s, a)
            && Front(t, k + 1) == Front(s, k) + {p} && Front(t, |s| + 1) == Front(s, |s|) + {p}
  {
    var u := s + [p];
    Appended(s, p, m);
    Appended(s, p, a);
    Appended(s, p, k);
    Joins(u, |s|, k);
    SwapAside(u, |s|, k, m);
    SwapAside(u, |s|, k, a);
    SwapAside(u, |s|, k, |s| + 1);
  }
}
