// The two-bucket warmup reserve: fresh profit is locked in a scheduled bucket that
// vests linearly, with one younger pending bucket behind it.
module Warmup {
  import opened Arith
  import opened Market
  import opened Options

  datatype Sched = Sched(remaining: nat, anchor: nat, start: nat, horizon: nat, released: nat)

  datatype Pend = Pend(remaining: nat, horizon: nat, created: nat)

  /** The reserve of one account; an absent bucket is `None`. */
  datatype Reserve = Reserve(total: nat, sched: Option<Sched>, pending: Option<Pend>)

  const NO_RESERVE := Reserve(0, None, None)

  function SchedLeft(r: Reserve): nat {
    if r.sched.Some? then r.sched.value.remaining else 0
  }

  function PendLeft(r: Reserve): nat {
    if r.pending.Some? then r.pending.value.remaining else 0
  }

  predicate HorizonOk(h: nat, hMin: nat, hMax: nat) {
    h != 0 && hMin <= h <= hMax
  }

  /** validate_reserve_shape, up to the bound by the account's positive PnL. */
  predicate ReserveShape(r: Reserve, hMin: nat, hMax: nat) {
    && (r.sched.Some? ==>
          var s := r.sched.value;
          && HorizonOk(s.horizon, hMin, hMax)
          && s.remaining + s.released <= s.anchor
          && s.remaining != 0)
    && (r.pending.Some? ==> HorizonOk(r.pending.value.horizon, hMin, hMax) && r.pending.value.remaining != 0)
    && SchedLeft(r) + PendLeft(r) == r.total
  }

  /** What the scheduled bucket has vested by slot `now`. */
  function Vested(s: Sched, now: nat): nat
    requires s.horizon > 0 && s.start <= now
  {
    if now - s.start >= s.horizon then s.anchor
    else
      FloorDivBounds(s.anchor * (now - s.start), s.horizon);
      FloorDiv(s.anchor * (now - s.start), s.horizon)
  }

  /** The native product in the vesting formula does not fit 128 bits. */
  predicate VestingPanics(s: Sched, now: nat)
    requires s.start <= now
  {
    now - s.start < s.horizon && s.anchor * (now - s.start) > U128_MAX
  }

  /** The reserve invariant: the shape, and nothing released ahead of schedule. */
  ghost predicate ReserveOk(r: Reserve, now: nat, hMin: nat, hMax: nat) {
    && ReserveShape(r, hMin, hMax)
    && (r.sched.Some? ==> r.sched.value.start <= now && r.sched.value.released <= Vested(r.sched.value, now))
  }

  // ---- the schedule and the queue in plain inequalities ----

  /** `v` of the bucket has vested: in proportion to the slots passed, rounded down, and
      all of it from the horizon on. */
  predicate HasVested(v: nat, s: Sched, now: nat) {
    if now < s.start + s.horizon then IsFloor(v, s.anchor * (now - s.start), s.horizon) else v == s.anchor
  }

  lemma VestedMeans(s: Sched, now: nat)
    requires s.horizon > 0 && s.start <= now
    ensures HasVested(Vested(s, now), s, now)
    ensures forall v: nat :: HasVested(v, s, now) ==> v == Vested(s, now)
  {
    if now < s.start + s.horizon {
      FloorIsFloor(s.anchor * (now - s.start), s.horizon);
    }
  }

  /** An advance from `r` to `q`: the scheduled bucket gives up what has vested beyond what
      it has released before, as far as it holds it; emptied, it is replaced by the
      pending one, which starts now. */
  ghost predicate VestsTo(r: Reserve, q: Reserve, now: nat) {
    r.sched.Some? ==>
      var s := r.sched.value;
      exists v: nat ::
        && HasVested(v, s, now) && s.released <= v
        && var out := Min(s.remaining, v - s.released);
           && q.total == r.total - out
           && (out < s.remaining ==>
                 q.sched == Some(s.(remaining := s.remaining - out, released := v)) && q.pending == r.pending)
           && (out == s.remaining ==>
                 && q.pending == None
                 && (r.pending.None? ==> q.sched == None)
                 && (r.pending.Some? ==>
                       var p := r.pending.value;
                       q.sched == Some(Sched(p.remaining, p.remaining, now, p.horizon, 0))))
  }

  /** What a loss takes: the pending bucket first, then the scheduled one, and nothing of
      their schedules. */
  predicate NewestTaken(r: Reserve, q: Reserve, loss: int) {
    && q.total == r.total - loss
    && PendLeft(q) == Max(PendLeft(r) - loss, 0)
    && SchedLeft(q) == SchedLeft(r) - Max(loss - PendLeft(r), 0)
    && (q.pending.Some? ==>
          r.pending.Some? && q.pending.value == r.pending.value.(remaining := q.pending.value.remaining))
    && (q.sched.Some? ==> r.sched.Some? && q.sched.value == r.sched.value.(remaining := q.sched.value.remaining))
  }

  /** Where new profit goes, after a pending bucket without one before it has become the
      scheduled one: into a new bucket, into one that started in this very slot with the
      same horizon and has released nothing, or into the pending one, which never gets a
      shorter horizon for it. */
  predicate QueuedTo(r: Reserve, q: Reserve, add: nat, now: nat, h: nat) {
    && q.total == r.total + add && q.sched.Some?
    && var s := q.sched.value;
       if r.sched.None? && r.pending.None? then s == Sched(add, add, now, h, 0) && q.pending == None
       else
         var before := if r.sched.Some? then r.sched.value
                       else var p := r.pending.value; Sched(p.remaining, p.remaining, now, p.horizon, 0);
         var waiting := if r.sched.Some? then r.pending else None;
         if waiting.Some? then
           && s == before && q.pending.Some? && q.pending.value.created == waiting.value.created
           && q.pending.value.remaining == waiting.value.remaining + add
           && h <= q.pending.value.horizon && waiting.value.horizon <= q.pending.value.horizon
           && q.pending.value.horizon in {h, waiting.value.horizon}
         else if before.start == now && before.horizon == h && before.released == 0 then
           s == before.(remaining := before.remaining + add, anchor := before.anchor + add) && q.pending == None
         else s == before && q.pending == Some(Pend(add, h, now))
  }

  // ---- the operations, on one reserve ----

  function Promoted(r: Reserve, now: nat): Reserve {
    if r.sched.None? && r.pending.Some? then
      var p := r.pending.value;
      Reserve(r.total, Some(Sched(p.remaining, p.remaining, now, p.horizon, 0)), None)
    else r
  }

  /** append_or_route_new_reserve. */
  function Appended(r: Reserve, add: nat, now: nat, h: nat): Reserve {
    var q := Promoted(r, now);
    var t := r.total + add;
    match (q.sched, q.pending)
    case (None, _) => Reserve(t, Some(Sched(add, add, now, h, 0)), q.pending)
    case (Some(s), None) =>
      if s.start == now && s.horizon == h && s.released == 0
      then Reserve(t, Some(s.(remaining := s.remaining + add, anchor := s.anchor + add)), None)
      else Reserve(t, q.sched, Some(Pend(add, h, now)))
    case (Some(s), Some(p)) =>
      Reserve(t, q.sched, Some(p.(remaining := p.remaining + add, horizon := Max(p.horizon, h))))
  }

  /** apply_reserve_loss_newest_first. */
  function AfterLoss(r: Reserve, loss: nat): Reserve
    requires loss <= r.total && SchedLeft(r) + PendLeft(r) == r.total
  {
    var fromPending := Min(loss, PendLeft(r));
    var fromSched := loss - fromPending;
    Reserve(r.total - loss,
            if SchedLeft(r) == fromSched then None else Some(r.sched.value.(remaining := SchedLeft(r) - fromSched)),
            if PendLeft(r) == fromPending then None else Some(r.pending.value.(remaining := PendLeft(r) - fromPending)))
  }

  /** What an advance to `now` releases from the scheduled bucket. */
  function Release(s: Sched, now: nat): nat
    requires s.horizon > 0 && s.start <= now && s.released <= Vested(s, now)
  {
    Min(s.remaining, Vested(s, now) - s.released)
  }

  predicate Advanceable(r: Reserve, now: nat) {
    && (r.pending.Some? ==> r.pending.value.horizon > 0)
    && SchedLeft(r) <= r.total
    && (r.sched.Some? ==>
          var s := r.sched.value;
          s.horizon > 0 && s.start <= now && s.released <= Vested(s, now))
  }

  lemma PromotedAdvanceable(r: Reserve, now: nat)
    requires Advanceable(r, now) && PendLeft(r) <= r.total
    ensures Advanceable(Promoted(r, now), now)
  {
    if r.sched.None? && r.pending.Some? {
      var p := r.pending.value;
      FloorDivUnique(0, p.horizon, 0);
    }
  }

  /** advance_profit_warmup; what left the reserve is the difference of the totals. */
  function Advanced(r: Reserve, now: nat): Reserve
    requires Advanceable(r, now) && PendLeft(r) <= r.total
  {
    PromotedAdvanceable(r, now);
    var q := Promoted(r, now);
    if q.sched.None? then q
    else
      var s := q.sched.value;
      var out := Release(s, now);
      var kept := Reserve(q.total - out, Some(s.(remaining := s.remaining - out, released := Vested(s, now))),
          q.pending);
      if s.remaining > out then kept else Promoted(kept.(sched := None), now)
  }

  // ---- the same operations, step by step on the bucket fields ----

  /** Merging into the scheduled bucket can exhaust its anchor. */
  predicate AnchorOverflows(r: Reserve, add: nat, now: nat, h: nat) {
    var q := Promoted(r, now);
    && q.sched.Some? && q.pending.None?
    && var s := q.sched.value;
       s.start == now && s.horizon == h && s.released == 0 && s.anchor + add > U128_MAX
  }

  method AppendOrRoute(r: Reserve, add: nat, now: nat, h: nat) returns (q: Result<Reserve>)
    ensures q == if AnchorOverflows(r, add, now, h) then Err(Overflow) else Ok(Appended(r, add, now, h))
    ensures q.Ok? ==> QueuedTo(r, q.value, add, now, h)
  {
    var sched, pending := r.sched, r.pending;
    if sched.None? && pending.Some? {
      sched := Some(Sched(pending.value.remaining, pending.value.remaining, now, pending.value.horizon, 0));
      pending := None;
    }
    if sched.None? {
      sched := Some(Sched(add, add, now, h, 0));
    } else if pending.None? && sched.value.start == now && sched.value.horizon == h && sched.value.released == 0 {
      if sched.value.anchor + add > U128_MAX {
        return Err(Overflow);
      }
      sched := Some(sched.value.(remaining := sched.value.remaining + add));
      sched := Some(sched.value.(anchor := sched.value.anchor + add));
    } else if pending.None? {
      pending := Some(Pend(add, h, now));
    } else {
      pending := Some(pending.value.(remaining := pending.value.remaining + add));
      pending := Some(pending.value.(horizon := Max(pending.value.horizon, h)));
    }
    q := Ok(Reserve(r.total + add, sched, pending));
  }

  lemma AfterLossMeans(r: Reserve, loss: nat)
    requires loss <= r.total && SchedLeft(r) + PendLeft(r) == r.total
    ensures NewestTaken(r, AfterLoss(r, loss), loss)
  {
    var q := AfterLoss(r, loss);
    assert q.total == r.total - loss;
    if q.pending.Some? {
      assert q.pending.value == r.pending.value.(remaining := q.pending.value.remaining);
    }
    if q.sched.Some? {
      assert q.sched.value == r.sched.value.(remaining := q.sched.value.remaining);
    }
  }

  method TakeNewestFirst(r: Reserve, loss: nat) returns (q: Reserve)
    requires loss <= r.total && SchedLeft(r) + PendLeft(r) == r.total
    requires r.sched.Some? ==> r.sched.value.remaining != 0
    requires r.pending.Some? ==> r.pending.value.remaining != 0
    ensures q == AfterLoss(r, loss) && NewestTaken(r, q, loss)
  {
    hide NewestTaken;
    AfterLossMeans(r, loss);
    var sched, pending := r.sched, r.pending;
    if loss > PendLeft(r) + SchedLeft(r) || loss > r.total {
      assert false;
    }
    var takePending := Min(loss, PendLeft(r));
    var takeSched := loss - takePending;
    if takePending > 0 {
      pending := Some(pending.value.(remaining := pending.value.remaining - takePending));
      if pending.value.remaining == 0 {
        pending := None;
      }
    }
    if takeSched > 0 {
      sched := Some(sched.value.(remaining := sched.value.remaining - takeSched));
      if sched.value.remaining == 0 {
        sched := None;
      }
    }
    q := Reserve(r.total - loss, sched, pending);
  }

  /** The reserve after an advance to `now`, and how much it released; a native
      product that does not fit aborts.  Its corrupt-state exits are unreachable. */
  method Advance(r: Reserve, now: nat) returns (q: Result<Reserve>, released: nat)
    requires Advanceable(r, now) && SchedLeft(r) + PendLeft(r) == r.total
    requires r.sched.Some? ==> r.sched.value.remaining != 0
    requires r.pending.Some? ==> r.pending.value.remaining != 0
    ensures q == Err(Panicked) <==> r.total != 0 && r.sched.Some? && VestingPanics(r.sched.value, now)
    ensures q.Err? ==> q.error == Panicked
    ensures q.Ok? ==> q.value == Advanced(r, now) && q.value.total + released == r.total
    ensures q.Ok? ==> VestsTo(r, q.value, now)
  {
    released := 0;
    if r.total == 0 {
      return Ok(r), 0;
    }
    PromotedAdvanceable(r, now);
    if r.sched.Some? {
      VestedMeans(r.sched.value, now);
    }
    var cur := r;
    if cur.sched.None? && cur.pending.Some? {
      var p := cur.pending.value;
      cur := Reserve(cur.total, Some(Sched(p.remaining, p.remaining, now, p.horizon, 0)), None);
    }
    if cur.sched.None? {
      assert false;
    }
    var s := cur.sched.value;
    if now < s.start || s.horizon == 0 {
      assert false;
    }
    var elapsed := now - s.start;
    var vested;
    if elapsed >= s.horizon {
      vested := s.anchor;
    } else {
      if s.anchor * elapsed > U128_MAX {
        NoPanicAtStart(r, cur, s, now);
        return Err(Panicked), 0;
      }
      vested := FloorDiv(s.anchor * elapsed, s.horizon);
    }
    if vested < s.released {
      assert false;
    }
    var increment := vested - s.released;
    released := Min(s.remaining, increment);
    if released > s.remaining || released > cur.total {
      assert false;
    }
    cur := Reserve(cur.total - released, Some(s.(remaining := s.remaining - released, released := vested)),
        cur.pending);
    if cur.sched.value.remaining == 0 {
      cur := cur.(sched := None);
      if cur.pending.Some? {
        var p := cur.pending.value;
        cur := Reserve(cur.total, Some(Sched(p.remaining, p.remaining, now, p.horizon, 0)), None);
      }
    }
    if cur.total == 0 && (cur.sched.Some? || cur.pending.Some?) {
      assert false;
    }
    q := Ok(cur);
  }

  /** A bucket that has suffered no loss holds what has not vested: what is gone is the
      truncated share of the slots passed, and nothing is left from the horizon on. */
  lemma UntouchedBucket(r: Reserve, q: Reserve, now: nat)
    requires VestsTo(r, q, now) && r.sched.Some? && r.pending.None? && r.total == r.sched.value.remaining
    requires var s := r.sched.value;
             s.start <= now && s.horizon > 0 && s.remaining + s.released == s.anchor
    ensures var s := r.sched.value;
            var gone, elapsed := s.anchor - q.total, now - s.start;
            && (elapsed < s.horizon ==> gone * s.horizon <= s.anchor * elapsed < (gone + 1) * s.horizon)
            && (elapsed >= s.horizon ==> q.total == 0)
  {
    var s := r.sched.value;
    VestedMeans(s, now);
    VestedBelowAnchor(s, now);
    var gone := s.anchor - q.total;
    assert gone == Vested(s, now);
    assert (gone + 1) * s.horizon == gone * s.horizon + s.horizon;
  }

  lemma NoPanicAtStart(r: Reserve, cur: Reserve, s: Sched, now: nat)
    requires cur == Promoted(r, now) && cur.sched == Some(s) && s.start <= now
    requires s.anchor * (now - s.start) > U128_MAX
    ensures r.sched == Some(s)
  {
    if r.sched.None? {
      assert s.anchor * 0 == 0;
    }
  }

  // ---- the invariant is kept ----

  lemma VestedMono(s: Sched, now: nat, later: nat)
    requires s.horizon > 0 && s.start <= now <= later
    ensures Vested(s, now) <= Vested(s, later) <= s.anchor
  {
    VestedBelowAnchor(s, now);
    VestedBelowAnchor(s, later);
    if later - s.start < s.horizon {
      MulMono(now - s.start, later - s.start, s.anchor);
      FloorDivMono(s.anchor * (now - s.start), s.anchor * (later - s.start), s.horizon);
    }
  }

  lemma VestedBelowAnchor(s: Sched, now: nat)
    requires s.horizon > 0 && s.start <= now
    ensures Vested(s, now) <= s.anchor
  {
    if now - s.start < s.horizon {
      MulMono(now - s.start, s.horizon, s.anchor);
      FloorDivUnique(s.anchor * s.horizon, s.horizon, s.anchor);
      FloorDivMono(s.anchor * (now - s.start), s.anchor * s.horizon, s.horizon);
    }
  }

  /** Time passing keeps the reserve invariant. */
  lemma TimeKeepsReserve(r: Reserve, now: nat, later: nat, hMin: nat, hMax: nat)
    requires ReserveOk(r, now, hMin, hMax) && now <= later
    ensures ReserveOk(r, later, hMin, hMax)
  {
    hide Vested;
    if r.sched.Some? {
      VestedMono(r.sched.value, now, later);
    }
  }

  lemma NothingVestedAtStart(s: Sched, now: nat)
    requires s.horizon > 0 && s.start == now
    ensures Vested(s, now) == 0
  {
    FloorDivUnique(0, s.horizon, 0);
  }

  lemma PromotedOk(r: Reserve, now: nat, hMin: nat, hMax: nat)
    requires ReserveOk(r, now, hMin, hMax)
    ensures ReserveOk(Promoted(r, now), now, hMin, hMax)
    ensures Promoted(r, now).total == r.total
  {
    hide Vested;
    var q := Promoted(r, now);
    if q != r {
      NothingVestedAtStart(q.sched.value, now);
    }
  }

  lemma AppendedOk(r: Reserve, add: nat, now: nat, h: nat, hMin: nat, hMax: nat)
    requires ReserveOk(r, now, hMin, hMax)
    requires add > 0 && HorizonOk(h, hMin, hMax)
    ensures ReserveOk(Appended(r, add, now, h), now, hMin, hMax)
    ensures Appended(r, add, now, h).total == r.total + add
  {
    hide Vested;
    PromotedOk(r, now, hMin, hMax);
    var q := Appended(r, add, now, h);
    if q.sched.Some? && q.sched.value.start == now {
      NothingVestedAtStart(q.sched.value, now);
    }
  }

  lemma AfterLossOk(r: Reserve, loss: nat, now: nat, hMin: nat, hMax: nat)
    requires ReserveOk(r, now, hMin, hMax) && loss <= r.total
    ensures ReserveOk(AfterLoss(r, loss), now, hMin, hMax)
    ensures AfterLoss(r, loss).total == r.total - loss
  {
    hide Vested;
    var q := AfterLoss(r, loss);
    if q.sched.Some? {
      VestedIgnoresRemaining(r.sched.value, q.sched.value, now);
    }
  }

  lemma VestedIgnoresRemaining(s: Sched, s': Sched, now: nat)
    requires s.horizon > 0 && s.start <= now
    requires s'.anchor == s.anchor && s'.start == s.start && s'.horizon == s.horizon
    ensures Vested(s', now) == Vested(s, now)
  {
  }

  /** Advancing keeps the invariant, never releases more than the reserve holds, and
      the guard against releasing ahead of schedule cannot fire. */
  lemma AdvancedOk(r: Reserve, now: nat, hMin: nat, hMax: nat)
    requires ReserveOk(r, now, hMin, hMax)
    ensures Advanceable(r, now) && PendLeft(r) <= r.total
    ensures ReserveOk(Advanced(r, now), now, hMin, hMax)
    ensures Advanced(r, now).total <= r.total
  {
    hide Vested;
    PromotedOk(r, now, hMin, hMax);
    var q := Promoted(r, now);
    if q.sched.Some? {
      var s := q.sched.value;
      var s' := s.(remaining := s.remaining - Release(s, now), released := Vested(s, now));
      VestedIgnoresRemaining(s, s', now);
      VestedBelowAnchor(s, now);
      if s.remaining == Release(s, now) && q.pending.Some? {
        NothingVestedAtStart(Promoted(Reserve(q.pending.value.remaining, None, q.pending), now).sched.value, now);
      }
    }
  }

  // ---- when the advances happen does not matter, or only helps the account ----

  /** With one bucket, the result depends on the last slot only: an extra advance on
      the way changes neither what remains nor what was released. */
  lemma OneBucketPathIndependent(r: Reserve, t1: nat, t2: nat, hMin: nat, hMax: nat)
    requires ReserveOk(r, t1, hMin, hMax) && t1 <= t2
    requires r.sched.Some? && r.pending.None?
    ensures ReserveOk(r, t2, hMin, hMax)
    ensures Advanceable(r, t1) && PendLeft(r) <= r.total && Advanceable(r, t2)
    ensures Advanceable(Advanced(r, t1), t2) && PendLeft(Advanced(r, t1)) <= Advanced(r, t1).total
    ensures Advanced(Advanced(r, t1), t2) == Advanced(r, t2)
  {
    hide Vested;
    TimeKeepsReserve(r, t1, t2, hMin, hMax);
    AdvancedOk(r, t1, hMin, hMax);
    AdvancedOk(r, t2, hMin, hMax);
    TimeKeepsReserve(Advanced(r, t1), t1, t2, hMin, hMax);
    AdvancedOk(Advanced(r, t1), t2, hMin, hMax);
    var s := r.sched.value;
    VestedMono(s, t1, t2);
    VestedIgnoresRemaining(s, s.(remaining := s.remaining - Release(s, t1), released := Vested(s, t1)), t2);
  }

  /** With a pending bucket behind it, skipping an intermediate advance never
      releases more: the pending bucket can only start vesting later. */
  lemma SkippingNeverReleasesMore(r: Reserve, t1: nat, t2: nat, hMin: nat, hMax: nat)
    requires ReserveOk(r, t1, hMin, hMax) && t1 <= t2
    ensures ReserveOk(r, t2, hMin, hMax)
    ensures Advanceable(r, t1) && PendLeft(r) <= r.total && Advanceable(r, t2)
    ensures Advanceable(Advanced(r, t1), t2) && PendLeft(Advanced(r, t1)) <= Advanced(r, t1).total
    ensures Advanced(Advanced(r, t1), t2).total <= Advanced(r, t2).total
  {
    hide Vested;
    TimeKeepsReserve(r, t1, t2, hMin, hMax);
    AdvancedOk(r, t1, hMin, hMax);
    AdvancedOk(r, t2, hMin, hMax);
    TimeKeepsReserve(Advanced(r, t1), t1, t2, hMin, hMax);
    AdvancedOk(Advanced(r, t1), t2, hMin, hMax);
    if r.sched.Some? {
      var s := r.sched.value;
      VestedMono(s, t1, t2);
      VestedIgnoresRemaining(s, s.(remaining := s.remaining - Release(s, t1), released := Vested(s, t1)), t2);
    } else if r.pending.Some? {
      NothingVestedAtStart(Promoted(r, t2).sched.value, t2);
    }
  }
}
