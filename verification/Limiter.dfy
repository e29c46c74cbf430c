/** The sliding-window token limiter (internal/ratelimit/window.go): a ring of 60 buckets that stands in for an
    exact log of charges, and reservations that are charged first and settled later. Times are nanoseconds. */
module Ledger {
  const BUCKETS := 60

  const DAY := 86_400_000_000_000

  /** From the zero time, 1 January of year 1, to the Unix epoch. */
  const EPOCH := 719_162 * DAY

  datatype Bucket = Bucket(start: int, tokens: int)

  /** One amount charged to the window; settled once it was given back. */
  datatype Charge = Charge(time: int, slot: nat, start: int, amount: nat, settled: bool)

  function Span(window: int): int { window / BUCKETS }

  /** now.Truncate(span): the grid counts from the zero time. */
  function Truncate(now: int, span: int): int
    requires span > 0
  {
    (now + EPOCH) / span * span - EPOCH
  }

  /** The slot: the grid counts from the Unix epoch. */
  function Slot(now: int, span: int): int
    requires span > 0
  {
    now / span % BUCKETS
  }

  // ---------------------------------------------------------------------------------------------
  // The two grids.
  // ---------------------------------------------------------------------------------------------

  lemma DivBounds(a: int, d: int)
    requires d > 0
    ensures a / d * d <= a < a / d * d + d
  {
  }

  lemma MulMonotone(a: int, b: int, d: int)
    requires d >= 0
    ensures a <= b ==> a * d <= b * d
  {
  }

  lemma DivMonotone(a: int, b: int, d: int)
    requires d > 0 && a <= b
    ensures a / d <= b / d && a / d * d <= b / d * d
  {
    DivBounds(a, d);
    DivBounds(b, d);
    var p, q := a / d, b / d;
    MulMonotone(q + 1, p, d);
    MulMonotone(p, q, d);
  }

  lemma QuotientUnique(a: int, d: int, q: int)
    requires d > 0 && q * d <= a < q * d + d
    ensures a / d == q
  {
    DivBounds(a, d);
    var p := a / d;
    MulMonotone(p + 1, q, d);
    MulMonotone(q + 1, p, d);
  }

  lemma TruncateBounds(now: int, span: int)
    requires span > 0
    ensures Truncate(now, span) <= now < Truncate(now, span) + span
  {
    DivBounds(now + EPOCH, span);
  }

  lemma TruncateMonotone(now: int, later: int, span: int)
    requires span > 0 && now <= later
    ensures Truncate(now, span) <= Truncate(later, span)
  {
    DivMonotone(now + EPOCH, later + EPOCH, span);
  }

  /** The start of a bucket agrees with its slot at every time if and only if the span divides the epoch. */
  lemma GridsAgree(span: int)
    requires span > 0
    ensures (forall now: int :: Truncate(now, span) == now / span * span) <==> EPOCH % span == 0
  {
    if EPOCH % span == 0 {
      forall now: int ensures Truncate(now, span) == now / span * span {
        GridAgrees(now, span);
      }
    } else {
      assert 0 / span * span == 0;
      assert Truncate(0, span) == EPOCH / span * span - EPOCH;
    }
  }

  lemma GridAgrees(now: int, span: int)
    requires span > 0 && EPOCH % span == 0
    ensures Truncate(now, span) == now / span * span
  {
    var q, p := EPOCH / span, now / span;
    DivBounds(now, span);
    assert EPOCH == q * span;
    assert (p + q) * span == p * span + q * span;
    QuotientUnique(now + EPOCH, span, p + q);
  }

  /** A span that does not divide the epoch has the start of a bucket move on inside every cell of the Unix grid. */
  lemma StartMoves(span: int, k: int, now: int, later: int)
    requires span > 0 && EPOCH % span != 0
    requires var move := (k + 1) * span - EPOCH % span; k * span <= now < move <= later < (k + 1) * span
    ensures now / span == later / span == k && Truncate(now, span) == Truncate(later, span) - span
  {
    var q, r := EPOCH / span, EPOCH % span;
    assert EPOCH == q * span + r;
    assert (k + 1) * span == k * span + span && (k + q) * span == k * span + q * span;
    assert (k + q + 1) * span == k * span + q * span + span;
    QuotientUnique(now, span, k);
    QuotientUnique(later, span, k);
    QuotientUnique(now + EPOCH, span, k + q);
    QuotientUnique(later + EPOCH, span, k + q + 1);
  }

  /** A span that divides a day divides the epoch. */
  lemma DayDivides(span: int)
    requires span > 0 && DAY % span == 0
    ensures EPOCH % span == 0
  {
    var q := DAY / span;
    assert DAY == q * span;
    assert EPOCH == 719_162 * (q * span) == (719_162 * q) * span;
    QuotientUnique(EPOCH, span, 719_162 * q);
  }

  // ---------------------------------------------------------------------------------------------
  // Sums over the log.
  // ---------------------------------------------------------------------------------------------

  /** The charges not given back that satisfy p. */
  ghost function SumIf(log: seq<Charge>, p: Charge -> bool): (r: nat) {
    if log == [] then 0 else (if p(log[0]) && !log[0].settled then log[0].amount else 0) + SumIf(log[1..], p)
  }

  ghost function InBucket(slot: nat, start: int): Charge -> bool { (e: Charge) => e.slot == slot && e.start == start }

  lemma {:induction false} SumAppend(log: seq<Charge>, e: Charge, p: Charge -> bool)
    ensures SumIf(log + [e], p) == SumIf(log, p) + if p(e) && !e.settled then e.amount else 0
  {
    if log == [] {
      assert log + [e] == [e];
      assert SumIf([e][1..], p) == 0;
    } else {
      SumAppend(log[1..], e, p);
      assert (log + [e])[1..] == log[1..] + [e];
    }
  }

  /** Giving a charge back lowers the sums it is part of by its amount. */
  lemma {:induction false} SumSettle(log: seq<Charge>, i: nat, p: Charge -> bool)
    requires i < |log| && !log[i].settled && p(log[i].(settled := true)) == p(log[i])
    ensures SumIf(log[i := log[i].(settled := true)], p) == SumIf(log, p) - if p(log[i]) then log[i].amount else 0
  {
    var log' := log[i := log[i].(settled := true)];
    if i == 0 {
      assert log'[1..] == log[1..];
    } else {
      SumSettle(log[1..], i - 1, p);
      assert log'[1..] == log[1..][i - 1 := log[i].(settled := true)];
    }
  }

  lemma {:induction false} SumLe(log: seq<Charge>, p: Charge -> bool, q: Charge -> bool)
    requires forall e :: e in log && !e.settled && p(e) ==> q(e)
    ensures SumIf(log, p) <= SumIf(log, q)
  {
    if log != [] {
      SumLe(log[1..], p, q);
      assert log[0] in log;
    }
  }

  lemma {:induction false} SumSplit(log: seq<Charge>, p: Charge -> bool, q: Charge -> bool, r: Charge -> bool)
    requires forall e :: e in log ==> (p(e) <==> q(e) || r(e)) && !(q(e) && r(e))
    ensures SumIf(log, p) == SumIf(log, q) + SumIf(log, r)
  {
    if log != [] {
      SumSplit(log[1..], p, q, r);
      assert log[0] in log;
    }
  }

  lemma {:induction false} SumNone(log: seq<Charge>, p: Charge -> bool)
    requires forall e :: e in log && !e.settled ==> !p(e)
    ensures SumIf(log, p) == 0
  {
    if log != [] {
      SumNone(log[1..], p);
      assert log[0] in log;
    }
  }

  // ---------------------------------------------------------------------------------------------
  // The ring keeps the books.
  // ---------------------------------------------------------------------------------------------

  /** Every bucket holds exactly the charges not given back that were stamped with its slot and start. */
  ghost predicate Booked(buckets: seq<Bucket>, log: seq<Charge>) {
    |buckets| == BUCKETS
    && forall s: nat {:trigger buckets[s]} :: s < BUCKETS ==> buckets[s].tokens == SumIf(log, InBucket(s, buckets[s].start))
  }

  /** Charges lie in the past; a charge not given back whose bucket is gone was overtaken by a later one or left the window. */
  ghost predicate Aged(buckets: seq<Bucket>, log: seq<Charge>, window: int, clock: int) {
    && |buckets| == BUCKETS <= window <= clock
    && (forall s: nat {:trigger buckets[s]} :: s < BUCKETS ==> 0 <= buckets[s].start <= clock)
    && (forall e {:trigger e in log} :: e in log ==>
          && e.slot < BUCKETS && 0 < e.start <= e.time <= clock
          && (e.settled || e.start <= clock - window || e.start <= buckets[e.slot].start <= Truncate(clock, Span(window))))
  }

  lemma AgedLater(buckets: seq<Bucket>, log: seq<Charge>, window: int, clock: int, now: int)
    requires Aged(buckets, log, window, clock) && clock <= now
    ensures Aged(buckets, log, window, now)
  {
    TruncateMonotone(clock, now, Span(window));
  }

  /** Giving back a charge never takes more out of a bucket than is in it. */
  lemma RefundKeeps(buckets: seq<Bucket>, log: seq<Charge>, i: nat)
    requires Booked(buckets, log) && i < |log| && log[i].slot < BUCKETS && !log[i].settled
    ensures var e := log[i]; var b := buckets[e.slot];
            && (b.start == e.start ==> e.amount <= b.tokens)
            && Booked(if b.start == e.start then buckets[e.slot := Bucket(b.start, b.tokens - e.amount)] else buckets,
                      log[i := e.(settled := true)])
  {
    forall s: nat | s < BUCKETS
      ensures SumIf(log[i := log[i].(settled := true)], InBucket(s, buckets[s].start)) ==
              buckets[s].tokens - if log[i].slot == s && log[i].start == buckets[s].start then log[i].amount else 0
    {
      SumSettle(log, i, InBucket(s, buckets[s].start));
    }
  }

  lemma ChargeKeeps(buckets: seq<Bucket>, log: seq<Charge>, e: Charge)
    requires Booked(buckets, log) && e.slot < BUCKETS && !e.settled
    requires buckets[e.slot].start != e.start ==> forall c :: c in log && !c.settled ==> !(c.slot == e.slot && c.start == e.start)
    ensures var b := buckets[e.slot];
            Booked(buckets[e.slot := Bucket(e.start, (if b.start == e.start then b.tokens else 0) + e.amount)], log + [e])
  {
    if buckets[e.slot].start != e.start {
      SumNone(log, InBucket(e.slot, e.start));
    }
    SumAppend(log, e, InBucket(e.slot, e.start));
    forall s: nat | s < BUCKETS && s != e.slot
      ensures SumIf(log + [e], InBucket(s, buckets[s].start)) == SumIf(log, InBucket(s, buckets[s].start))
    {
      SumAppend(log, e, InBucket(s, buckets[s].start));
    }
  }

  /** The bucket of the current time holds the latest charges of its slot. */
  lemma ChargeFresh(buckets: seq<Bucket>, log: seq<Charge>, window: int, now: int, slot: nat)
    requires Aged(buckets, log, window, now) && slot < BUCKETS
    ensures var start := Truncate(now, Span(window));
            && 0 < start <= now
            && (buckets[slot].start != start ==> forall c :: c in log && !c.settled ==> !(c.slot == slot && c.start == start))
  {
    TruncateBounds(now, Span(window));
  }

  /** Dropping a bucket that left the window. */
  lemma DropKeeps(buckets: seq<Bucket>, log: seq<Charge>, window: int, now: int, s: nat)
    requires Booked(buckets, log) && Aged(buckets, log, window, now) && s < BUCKETS && buckets[s].start <= now - window
    ensures Booked(buckets[s := Bucket(0, 0)], log) && Aged(buckets[s := Bucket(0, 0)], log, window, now)
  {
    SumNone(log, InBucket(s, 0));
    TruncateBounds(now, Span(window));
  }

  // ---------------------------------------------------------------------------------------------
  // What the counted usage says about the log.
  // ---------------------------------------------------------------------------------------------

  /** What the first n buckets add up to, leaving out those that left the window. */
  ghost function Counted(buckets: seq<Bucket>, n: nat, cutoff: int): int
    requires n <= |buckets|
  {
    if n == 0 then 0
    else Counted(buckets, n - 1, cutoff) + if buckets[n - 1].start > cutoff then buckets[n - 1].tokens else 0
  }

  /** The charges that the first n buckets hold. */
  ghost function HeldBy(buckets: seq<Bucket>, n: nat, cutoff: int): Charge -> bool
    requires n <= |buckets|
  {
    (e: Charge) => e.slot < n && buckets[e.slot].start == e.start && e.start > cutoff
  }

  lemma {:induction false} CountedIsHeld(buckets: seq<Bucket>, log: seq<Charge>, n: nat, cutoff: int)
    requires Booked(buckets, log) && n <= BUCKETS
    ensures Counted(buckets, n, cutoff) == SumIf(log, HeldBy(buckets, n, cutoff))
  {
    if n == 0 {
      SumNone(log, HeldBy(buckets, 0, cutoff));
    } else {
      CountedIsHeld(buckets, log, n - 1, cutoff);
      HeldNext(buckets, log, n, cutoff);
    }
  }

  lemma HeldNext(buckets: seq<Bucket>, log: seq<Charge>, n: nat, cutoff: int)
    requires Booked(buckets, log) && 0 < n <= BUCKETS
    ensures SumIf(log, HeldBy(buckets, n, cutoff)) ==
            SumIf(log, HeldBy(buckets, n - 1, cutoff)) + if buckets[n - 1].start > cutoff then buckets[n - 1].tokens else 0
  {
    if buckets[n - 1].start > cutoff {
      SumSplit(log, HeldBy(buckets, n, cutoff), HeldBy(buckets, n - 1, cutoff), InBucket(n - 1, buckets[n - 1].start));
    } else {
      SumLe(log, HeldBy(buckets, n, cutoff), HeldBy(buckets, n - 1, cutoff));
      SumLe(log, HeldBy(buckets, n - 1, cutoff), HeldBy(buckets, n, cutoff));
    }
  }

  /** The charges of the window that were not given back, and the buckets that hold them, sit on one grid. */
  ghost predicate Aligned(buckets: seq<Bucket>, log: seq<Charge>, window: int, clock: int)
    requires BUCKETS <= window
  {
    forall e {:trigger e in log} :: e in log && !e.settled ==>
      && (e.time > clock - window ==> e.start == e.time / Span(window) * Span(window) && e.slot == Slot(e.time, Span(window)))
      && (e.start > clock - window ==> e.slot < |buckets| && OnGrid(buckets[e.slot].start, e.slot, Span(window)))
  }

  predicate OnGrid(start: int, slot: nat, span: int)
    requires span > 0
  {
    start == start / span * span && start / span % BUCKETS == slot
  }

  /** The charges made since a time. */
  ghost function Since(time: int): Charge -> bool { (e: Charge) => e.time >= time }

  /** The start of the oldest of the 60 cells of the grid that end with the current one. */
  function Oldest(now: int, span: int): int
    requires span > 0
  {
    (now / span - (BUCKETS - 1)) * span
  }

  lemma OldestBounds(now: int, window: int)
    requires BUCKETS <= window
    ensures now - window < Oldest(now, Span(window)) <= now - (BUCKETS - 1) * Span(window)
    ensures window % BUCKETS == 0 ==> Oldest(now, Span(window)) <= now - window + Span(window)
  {
    var span := Span(window);
    DivBounds(now, span);
    assert Oldest(now, span) == now / span * span - (BUCKETS - 1) * span;
  }

  /** A time since the oldest cell lies in one of the last 60. */
  lemma RecentCell(time: int, now: int, span: int)
    requires span > 0
    ensures time >= Oldest(now, span) ==> time / span >= now / span - (BUCKETS - 1) && time / span * span >= Oldest(now, span)
    ensures time / span >= now / span - (BUCKETS - 1) ==> time >= Oldest(now, span)
  {
    var k, first := time / span, now / span - (BUCKETS - 1);
    DivBounds(time, span);
    QuotientUnique(first * span, span, first);
    if time >= Oldest(now, span) {
      DivMonotone(first * span, time, span);
    }
    MulMonotone(first, k, span);
  }

  /** Two starts on the grid, in order and in the same slot, not 60 cells apart. */
  lemma SameCell(k: int, j: int, cell: int)
    requires cell - (BUCKETS - 1) <= k <= j <= cell && j % BUCKETS == k % BUCKETS
    ensures j == k
  {
  }

  /** A charge of the last 60 cells is still in its bucket. */
  lemma RecentIsHeld(buckets: seq<Bucket>, log: seq<Charge>, window: int, now: int, e: Charge)
    requires Aged(buckets, log, window, now) && Aligned(buckets, log, window, now) && e in log && !e.settled
    requires e.time >= Oldest(now, Span(window))
    ensures buckets[e.slot].start == e.start > now - window
  {
    var span, b := Span(window), buckets[e.slot];
    OldestBounds(now, window);
    RecentCell(e.time, now, span);
    StartsAgree(e.start, e.time / span, b.start, now, span);
  }

  lemma StartsAgree(start: int, k: int, later: int, now: int, span: int)
    requires span > 0 && start == k * span && start <= later <= Truncate(now, span)
    requires later == later / span * span && later / span % BUCKETS == k % BUCKETS && k >= now / span - (BUCKETS - 1)
    ensures later == start
  {
    QuotientUnique(start, span, k);
    DivMonotone(start, later, span);
    TruncateBounds(now, span);
    DivMonotone(later, now, span);
    SameCell(k, later / span, now / span);
  }

  /** A charge that is counted was made in the last 60 cells, when the window is 60 spans. */
  lemma HeldIsRecent(log: seq<Charge>, window: int, now: int, span: int, e: Charge)
    requires BUCKETS <= window && window % BUCKETS == 0 && span == Span(window)
    requires e.start == e.time / span * span > now - window
    ensures e.time >= Oldest(now, span)
  {
    DivBounds(now, span);
    var k, cell := e.time / span, now / span;
    assert (k - cell + BUCKETS) * span == k * span - cell * span + BUCKETS * span;
    MulMonotone(k - cell + BUCKETS, 0, span);
    RecentCell(e.time, now, span);
  }

  /** The counted usage is at least what was charged in the last 60 cells and not given back, and exactly that when 60
      divides the window. */
  lemma UsageIs(buckets: seq<Bucket>, log: seq<Charge>, window: int, now: int)
    requires Booked(buckets, log) && Aged(buckets, log, window, now) && Aligned(buckets, log, window, now)
    ensures SumIf(log, Since(Oldest(now, Span(window)))) <= Counted(buckets, BUCKETS, now - window)
    ensures window % BUCKETS == 0 ==> Counted(buckets, BUCKETS, now - window) == SumIf(log, Since(Oldest(now, Span(window))))
  {
    var span := Span(window);
    var held, since := HeldBy(buckets, BUCKETS, now - window), Since(Oldest(now, span));
    CountedIsHeld(buckets, log, BUCKETS, now - window);
    forall e | e in log && !e.settled && since(e) ensures held(e) {
      RecentIsHeld(buckets, log, window, now, e);
    }
    SumLe(log, since, held);
    if window % BUCKETS == 0 {
      forall e | e in log && !e.settled && held(e) ensures since(e) {
        HeldIsRecent(log, window, now, span, e);
      }
      SumLe(log, held, since);
    }
  }

  /** So no charge of the last window less one span escapes the count, and none older than the window is counted. */
  lemma UsageBounds(buckets: seq<Bucket>, log: seq<Charge>, window: int, now: int)
    requires Booked(buckets, log) && Aged(buckets, log, window, now) && Aligned(buckets, log, window, now)
    requires window % BUCKETS == 0
    ensures SumIf(log, Since(now - window + Span(window))) <= Counted(buckets, BUCKETS, now - window) <= SumIf(log, Since(now - window))
  {
    UsageIs(buckets, log, window, now);
    OldestBounds(now, window);
    var oldest := Oldest(now, Span(window));
    SumLe(log, Since(now - window + Span(window)), Since(oldest));
    SumLe(log, Since(oldest), Since(now - window));
  }
}

module Limiter {
  import opened Wrappers
  import opened Sequences
  import opened Ledger
  import Vault

  datatype Limits = Limits(tokensPerWindow: int, window: int, maxConcurrent: int, ttl: int)
  {
    function Normalized(): (r: Limits)
      ensures r.window > 0 && r.ttl > 0 && (window > 0 && ttl > 0 ==> r == this)
      ensures r.tokensPerWindow == tokensPerWindow && r.maxConcurrent == maxConcurrent
    {
      Limits(tokensPerWindow, if window <= 0 then 60_000_000_000 else window, maxConcurrent,
             if ttl <= 0 then 600_000_000_000 else ttl)
    }
  }

  datatype Reservation = Reservation(id: string, subject: string, reserved: nat, issuedAt: int, slot: nat, start: int)

  datatype LimitError = NegativeTokens | TooManyInFlight | QuotaExceeded | UnknownReservation

  type Live = map<string, Reservation>

  /** What a subject's window stands for: every charge ever made, where each reservation was charged, and the
      reservations not settled yet. */
  datatype View = View(log: seq<Charge>, entry: map<string, nat>, live: Live)

  // ---------------------------------------------------------------------------------------------
  // Reservations and their charges.
  // ---------------------------------------------------------------------------------------------

  ghost predicate Stamped(r: Reservation, c: Charge) {
    r.reserved == c.amount && r.issuedAt == c.time && r.slot == c.slot && r.start == c.start
  }

  /** A reservation ever issued is live exactly until its charge is settled, and no two share a charge. */
  ghost predicate Tracked(v: View) {
    && (forall id {:trigger Recorded(v, id)} :: id in v.entry ==> Recorded(v, id))
    && (forall id {:trigger Backed(v, id)} :: id in v.live ==> Backed(v, id))
    && (forall id, id' {:trigger Apart(v, id, id')} :: id in v.entry && id' in v.entry && id != id' ==> Apart(v, id, id'))
  }

  ghost predicate Recorded(v: View, id: string)
    requires id in v.entry
  {
    v.entry[id] < |v.log| && (id in v.live <==> !v.log[v.entry[id]].settled)
  }

  ghost predicate Backed(v: View, id: string)
    requires id in v.live
  {
    id in v.entry && v.entry[id] < |v.log| && v.live[id].id == id && Stamped(v.live[id], v.log[v.entry[id]])
  }

  ghost predicate Apart(v: View, id: string, id': string)
    requires id in v.entry && id' in v.entry
  {
    v.entry[id] != v.entry[id']
  }

  ghost predicate ChargedFor(entry: map<string, nat>, ids: set<string>, i: int) {
    exists id :: id in ids && id in entry && entry[id] == i
  }

  ghost function SettledLog(log: seq<Charge>, entry: map<string, nat>, gone: set<string>): seq<Charge> {
    seq(|log|, i requires 0 <= i < |log| => if ChargedFor(entry, gone, i) then log[i].(settled := true) else log[i])
  }

  /** The view once these reservations are settled. */
  ghost function Settled(v: View, gone: set<string>): View {
    View(SettledLog(v.log, v.entry, gone), v.entry, v.live - gone)
  }

  predicate IsExpired(r: Reservation, ttl: int, now: int) { now - r.issuedAt >= ttl }

  ghost function Expired(live: Live, ttl: int, now: int): set<string> {
    set id | id in live && IsExpired(live[id], ttl, now)
  }

  /** All but the reservations still to be looked at have been sorted into those that go and those that stay. */
  ghost predicate Sifted(live: Live, todo: set<string>, gone: set<string>, ttl: int, now: int) {
    && todo + gone <= live.Keys && gone !! todo
    && forall id :: id in live && id !in todo ==> (id in gone <==> IsExpired(live[id], ttl, now))
  }

  lemma SiftNext(live: Live, todo: set<string>, gone: set<string>, ttl: int, now: int, id: string)
    requires Sifted(live, todo, gone, ttl, now) && id in todo
    ensures id in live - gone && (live - gone)[id] == live[id]
    ensures Sifted(live, todo - {id}, if IsExpired(live[id], ttl, now) then gone + {id} else gone, ttl, now)
  {
  }

  lemma SiftedAll(live: Live, gone: set<string>, ttl: int, now: int)
    requires Sifted(live, {}, gone, ttl, now)
    ensures gone == Expired(live, ttl, now)
  {
  }

  /** The view after a sweep. */
  ghost function Swept(v: View, ttl: int, now: int): View {
    Settled(v, Expired(v.live, ttl, now))
  }

  ghost function Charged(v: View, c: Charge): View { View(v.log + [c], v.entry, v.live) }

  ghost function Issued(v: View, id: string, r: Reservation): View
    requires |v.log| > 0
  {
    View(v.log, v.entry[id := |v.log| - 1], v.live[id := r])
  }

  function NewCharge(window: int, now: int, amount: nat): Charge
    requires BUCKETS <= window <= now
  {
    var span := Span(window);
    Charge(now, Slot(now, span), Truncate(now, span), amount, false)
  }

  lemma SettledNone(v: View)
    ensures Settled(v, {}) == v
  {
    assert SettledLog(v.log, v.entry, {}) == v.log;
  }

  lemma SettledLogOne(log: seq<Charge>, entry: map<string, nat>, id: string)
    requires id in entry && entry[id] < |log|
    ensures SettledLog(log, entry, {id}) == log[entry[id] := log[entry[id]].(settled := true)]
  {
    forall i | 0 <= i < |log| ensures ChargedFor(entry, {id}, i) <==> i == entry[id] {
    }
  }

  lemma SettledTracked(v: View, id: string)
    requires Tracked(v) && id in v.live
    ensures Tracked(Settled(v, {id})) && Backed(v, id) && Recorded(v, id)
  {
    assert Backed(v, id) && Recorded(v, id);
    SettledLogOne(v.log, v.entry, id);
    var w := Settled(v, {id});
    forall x | x in w.entry ensures Recorded(w, x) {
      assert Recorded(v, x) && (x != id ==> Apart(v, x, id));
    }
    forall x | x in w.live ensures Backed(w, x) {
      assert Backed(v, x) && Apart(v, x, id);
    }
    forall x, y | x in w.entry && y in w.entry && x != y ensures Apart(w, x, y) {
      assert Apart(v, x, y);
    }
  }

  lemma Fewer(live: Live, id: string)
    requires id in live
    ensures |live - {id}| == |live| - 1
  {
    assert live.Keys == (live - {id}).Keys + {id};
    assert |live.Keys| == |live| && |(live - {id}).Keys| == |live - {id}|;
  }

  lemma SettledMore(v: View, gone: set<string>, id: string)
    ensures Settled(Settled(v, gone), {id}) == Settled(v, gone + {id})
  {
    var log, a, b := v.log, SettledLog(SettledLog(v.log, v.entry, gone), v.entry, {id}), SettledLog(v.log, v.entry, gone + {id});
    forall i | 0 <= i < |log| ensures a[i] == b[i] {
      assert ChargedFor(v.entry, gone + {id}, i) <==> ChargedFor(v.entry, gone, i) || ChargedFor(v.entry, {id}, i);
    }
    assert a == b;
    assert v.live - gone - {id} == v.live - (gone + {id});
  }

  // ---------------------------------------------------------------------------------------------
  // What each operation promises about the view.
  // ---------------------------------------------------------------------------------------------

  /** 60 divides the window and the two grids agree, as for any window of whole minutes that divides a day. */
  ghost predicate Even(window: int) { BUCKETS <= window && window % BUCKETS == 0 && EPOCH % Span(window) == 0 }

  /** What of the window is taken: the charges of the last 60 cells that were not given back. */
  ghost function Taken(v: View, window: int, now: int): nat
    requires BUCKETS <= window
  {
    SumIf(v.log, Since(Oldest(now, Span(window))))
  }

  /** Admission. After the sweep there is a free place or the request is refused; with a quota it is refused exactly
      when what is taken and the reservation together exceed it. */
  ghost predicate Admits(limits: Limits, v: View, v': View, id: string, subject: string, amount: nat, now: int,
                         r: Result<Reservation, LimitError>)
    requires BUCKETS <= limits.window <= now
  {
    var w, c := Swept(v, limits.ttl, now), NewCharge(limits.window, now, amount);
    if limits.maxConcurrent > 0 && |w.live| >= limits.maxConcurrent then r == Failure(TooManyInFlight) && v' == w
    else
      match r
      case Failure(e) =>
        && e == QuotaExceeded && v' == w && limits.tokensPerWindow > 0
        && (Even(limits.window) ==> Taken(w, limits.window, now) + amount > limits.tokensPerWindow)
      case Success(res) =>
        && res == Reservation(id, subject, amount, now, c.slot, c.start)
        && v' == Issued(Charged(w, c), id, res)
        && (limits.tokensPerWindow > 0 && EPOCH % Span(limits.window) == 0 ==> Taken(v', limits.window, now) <= limits.tokensPerWindow)
  }

  // ---------------------------------------------------------------------------------------------
  // Who lives on.
  // ---------------------------------------------------------------------------------------------

  /** The reservation is still live, and its charge still on the books as it was. */
  ghost predicate Stays(v: View, v': View, id: string)
    requires id in v.live
  {
    && id in v'.live && v'.live[id] == v.live[id] && id in v.entry && id in v'.entry && v'.entry[id] == v.entry[id]
    && v.entry[id] < |v.log| && v.entry[id] < |v'.log| && v'.log[v.entry[id]] == v.log[v.entry[id]] && !v.log[v.entry[id]].settled
  }

  /** The reservation is gone, and its charge given back. */
  ghost predicate Goes(v: View, v': View, id: string)
    requires id in v.live
  {
    id !in v'.live && id in v.entry && v.entry[id] < |v'.log| && v'.log[v.entry[id]].settled
  }

  /** Reservations younger than their time to live stay, the others go, and no other charge changes. */
  ghost predicate Timely(v: View, v': View, ttl: int, now: int) {
    && (forall id {:trigger Stays(v, v', id)} :: id in v.live && now - v.live[id].issuedAt < ttl ==> Stays(v, v', id))
    && (forall id {:trigger Goes(v, v', id)} :: id in v.live && now - v.live[id].issuedAt >= ttl ==> Goes(v, v', id))
    && |v.log| <= |v'.log|
    && (forall i: nat {:trigger v'.log[i]} :: i < |v.log| ==>
          v'.log[i] == v.log[i] || exists id :: id in v.live && now - v.live[id].issuedAt >= ttl && id in v.entry && v.entry[id] == i)
  }

  lemma SweepIsTimely(v: View, ttl: int, now: int)
    requires Tracked(v)
    ensures Timely(v, Swept(v, ttl, now), ttl, now)
  {
    var gone, w := Expired(v.live, ttl, now), Swept(v, ttl, now);
    forall id | id in v.live && now - v.live[id].issuedAt < ttl ensures Stays(v, w, id) {
      assert Backed(v, id) && Recorded(v, id);
      forall other | other in gone && other in v.entry ensures v.entry[other] != v.entry[id] {
        assert other in v.live && other != id && Apart(v, other, id);
      }
    }
    forall id | id in v.live && now - v.live[id].issuedAt >= ttl ensures Goes(v, w, id) {
      assert Backed(v, id) && ChargedFor(v.entry, gone, v.entry[id]);
    }
    forall i: nat | i < |v.log|
      ensures w.log[i] == v.log[i] || exists id :: id in v.live && now - v.live[id].issuedAt >= ttl && id in v.entry && v.entry[id] == i
    {
    }
  }

  /** What an admission answers and does: by the quota and the free places, and to the reservations by their age. */
  ghost predicate Answers(limits: Limits, v: View, v': View, id: string, subject: string, amount: nat, now: int,
                          r: Result<Reservation, LimitError>) {
    BUCKETS <= limits.window <= now && Admits(limits, v, v', id, subject, amount, now, r) && Timely(v, v', limits.ttl, now)
  }

  lemma AdmissionIsTimely(limits: Limits, v: View, v': View, id: string, subject: string, amount: nat, now: int,
                          r: Result<Reservation, LimitError>)
    requires BUCKETS <= limits.window <= now && Tracked(v) && id !in v.entry && Admits(limits, v, v', id, subject, amount, now, r)
    ensures Timely(v, v', limits.ttl, now)
  {
    SweepIsTimely(v, limits.ttl, now);
    var w := Swept(v, limits.ttl, now);
    forall x | x in v.live && now - v.live[x].issuedAt < limits.ttl ensures Stays(v, v', x) {
      assert Stays(v, w, x);
    }
    forall x | x in v.live && now - v.live[x].issuedAt >= limits.ttl ensures Goes(v, v', x) {
      assert Goes(v, w, x);
    }
  }

  /** At every admission the charges of the last window less one span, the new one among them, fit the quota; and a
      refusal means that the charges of the last whole window and the new one do not. */
  lemma QuotaHolds(limits: Limits, v: View, v': View, id: string, subject: string, amount: nat, now: int,
                   r: Result<Reservation, LimitError>)
    requires Even(limits.window) && limits.window <= now && limits.tokensPerWindow > 0
    requires Admits(limits, v, v', id, subject, amount, now, r)
    ensures r.Success? ==> SumIf(v'.log, Since(now - limits.window + Span(limits.window))) <= limits.tokensPerWindow
    ensures r == Failure(QuotaExceeded) ==> SumIf(v'.log, Since(now - limits.window)) + amount > limits.tokensPerWindow
  {
    var span := Span(limits.window);
    OldestBounds(now, limits.window);
    SumLe(v'.log, Since(now - limits.window + span), Since(Oldest(now, span)));
    SumLe(v'.log, Since(Oldest(now, span)), Since(now - limits.window));
  }

  // ---------------------------------------------------------------------------------------------
  // The books.
  // ---------------------------------------------------------------------------------------------

  /** The ring holds exactly what the log says, and the reservations are those of the log. */
  ghost predicate Books(buckets: seq<Bucket>, v: View, window: int, clock: int) {
    Rings(buckets, v.log, window, clock) && Tracked(v)
  }

  ghost predicate Rings(buckets: seq<Bucket>, log: seq<Charge>, window: int, clock: int) {
    && Booked(buckets, log) && Aged(buckets, log, window, clock)
    && (EPOCH % Span(window) == 0 ==> Aligned(buckets, log, window, clock))
  }

  function AfterCharge(buckets: seq<Bucket>, slot: nat, start: int, amount: nat): seq<Bucket>
    requires slot < |buckets|
  {
    buckets[slot := Bucket(start, (if buckets[slot].start == start then buckets[slot].tokens else 0) + amount)]
  }

  function AfterRefund(buckets: seq<Bucket>, slot: nat, start: int, amount: nat): seq<Bucket>
    requires slot < |buckets|
  {
    if buckets[slot].start == start then buckets[slot := Bucket(start, AtLeastZero(buckets[slot].tokens - amount))] else buckets
  }

  lemma RingsCharge(buckets: seq<Bucket>, log: seq<Charge>, window: int, now: int, amount: nat)
    requires Rings(buckets, log, window, now)
    ensures var c := NewCharge(window, now, amount); Rings(AfterCharge(buckets, c.slot, c.start, amount), log + [c], window, now)
  {
    var span, c := Span(window), NewCharge(window, now, amount);
    ChargeFresh(buckets, log, window, now, c.slot);
    ChargeKeeps(buckets, log, c);
    TruncateBounds(now, span);
    if EPOCH % span == 0 {
      GridAgrees(now, span);
      DivBounds(now, span);
      QuotientUnique(c.start, span, now / span);
    }
  }

  /** Giving back a charge moves nothing in time, and never takes out more than is there. */
  lemma RingsRefund(buckets: seq<Bucket>, log: seq<Charge>, window: int, clock: int, i: nat)
    requires Rings(buckets, log, window, clock) && i < |log| && !log[i].settled
    ensures log[i] in log && log[i].slot < |buckets|
    ensures var e := log[i];
            && (buckets[e.slot].start == e.start ==> e.amount <= buckets[e.slot].tokens)
            && Rings(AfterRefund(buckets, e.slot, e.start, e.amount), log[i := e.(settled := true)], window, clock)
  {
    var e, log' := log[i], log[i := log[i].(settled := true)];
    assert e in log;
    RefundKeeps(buckets, log, i);
    forall x | x in log' ensures x in log || x == e.(settled := true) {
    }
  }

  // ---------------------------------------------------------------------------------------------
  // Changing the window of a subject in use.
  // ---------------------------------------------------------------------------------------------

  /** No charge made since a time is still on the books. */
  ghost predicate Quiet(log: seq<Charge>, since: int) {
    forall e {:trigger e in log} :: e in log ==> e.settled || e.time <= since
  }

  /** Nothing on the books falls into the new window: then they are exact for it as well. */
  lemma QuietChange(buckets: seq<Bucket>, log: seq<Charge>, window: int, other: int, clock: int)
    requires Rings(buckets, log, window, clock) && BUCKETS <= other <= clock && Quiet(log, clock - other)
    ensures Rings(buckets, log, other, clock)
  {
  }

  /** Whatever is on the books, a change of window keeps them exact if and only if it changes nothing. */
  lemma ChangeIsSafe(window: int, other: int)
    requires Even(window) && Even(other)
    ensures (forall buckets, log, clock {:trigger Rings(buckets, log, window, clock)} ::
               Rings(buckets, log, window, clock) && other <= clock ==> Rings(buckets, log, other, clock)) <==> window == other
  {
    if window != other {
      var a, b := Span(window), Span(other);
      var now := BUCKETS * a * b + Min(a, b);
      WindowsPass(a, b);
      var empty := seq(BUCKETS, _ => Bucket(0, 0));
      var c := NewCharge(window, now, 1);
      RingsCharge(empty, [], window, now, 1);
      ApartOnGrids(a, b);
      GridAgrees(now, a);
      assert [] + [c] == [c];
      assert c in [c];
      assert Rings(AfterCharge(empty, c.slot, c.start, 1), [c], window, now);
      assert !Aligned(AfterCharge(empty, c.slot, c.start, 1), [c], other, now);
    }
  }

  function Min(a: int, b: int): int { if a < b then a else b }

  lemma WindowsPass(a: int, b: int)
    requires a > 0 && b > 0
    ensures BUCKETS * a <= BUCKETS * a * b + Min(a, b) && BUCKETS * b <= BUCKETS * a * b + Min(a, b)
  {
    MulMonotone(1, b, BUCKETS * a);
    MulMonotone(1, a, BUCKETS * b);
    assert BUCKETS * a * b == a * (BUCKETS * b);
  }

  /** A time at which one grid has a cell begin, and the other has not. */
  lemma ApartOnGrids(a: int, b: int)
    requires a > 0 && b > 0 && a != b
    ensures var now := BUCKETS * a * b + Min(a, b); now / a * a != now / b * b
  {
    var now := BUCKETS * a * b + Min(a, b);
    assert BUCKETS * a * b == (BUCKETS * b) * a == (BUCKETS * a) * b;
    if a < b {
      assert (BUCKETS * b + 1) * a == BUCKETS * a * b + a;
      QuotientUnique(now, a, BUCKETS * b + 1);
      QuotientUnique(now, b, BUCKETS * a);
    } else {
      assert (BUCKETS * a + 1) * b == BUCKETS * a * b + b;
      QuotientUnique(now, b, BUCKETS * a + 1);
      QuotientUnique(now, a, BUCKETS * b);
    }
  }

  const SECOND := 1_000_000_000
  const MINUTE := 60 * SECOND

  /** One second before one o'clock on 1 January 2026, UTC. */
  const LATE := 1_767_229_199 * SECOND

  lemma LateCell(span: int, cell: int, start: int)
    requires span > 0 && DAY % span == 0 && start == cell * span <= LATE < start + span
    ensures Truncate(LATE, span) == start && Slot(LATE, span) == cell % BUCKETS
  {
    DayDivides(span);
    GridAgrees(LATE, span);
    QuotientUnique(LATE, span, cell);
  }

  /** At this time the grids of one and of ten minutes share a slot, but not its start. */
  lemma LateSlots(amount: nat)
    ensures NewCharge(MINUTE, LATE, amount) == Charge(LATE, 59, LATE, amount, false)
    ensures NewCharge(10 * MINUTE, LATE, amount) == Charge(LATE, 59, LATE - 9 * SECOND, amount, false)
  {
    LateCell(SECOND, 1_767_229_199, LATE);
    LateCell(10 * SECOND, 176_722_919, LATE - 9 * SECOND);
  }

  /** The second charge is added to the first. */
  ghost predicate AddsUp(buckets: seq<Bucket>, window: int, now: int, later: int, first: nat, second: nat)
    requires |buckets| == BUCKETS <= window <= now && window <= later
  {
    var c, d := NewCharge(window, now, first), NewCharge(window, later, second);
    var ring := AfterCharge(buckets, c.slot, c.start, first);
    AfterCharge(ring, d.slot, d.start, second)[d.slot] == Bucket(c.start, ring[c.slot].tokens + second)
  }

  /** A charge wipes out an earlier one of its cell, if the start of the bucket has moved on between them. */
  lemma SecondWipesFirst(buckets: seq<Bucket>, window: int, k: int, now: int, later: int, first: nat, second: nat)
    requires |buckets| == BUCKETS <= window <= now && EPOCH % Span(window) != 0
    requires var span := Span(window); var move := (k + 1) * span - EPOCH % span;
             k * span <= now < move <= later < (k + 1) * span
    ensures var c, d := NewCharge(window, now, first), NewCharge(window, later, second);
            && c.slot == d.slot && c.start < d.start
            && AfterCharge(AfterCharge(buckets, c.slot, c.start, first), d.slot, d.start, second)[d.slot] == Bucket(d.start, second)
  {
    StartMoves(Span(window), k, now, later);
  }

  /** Two charges of one cell always add up if and only if the span divides the epoch; otherwise there is no cell after the
      first window in which they always do. */
  lemma ChargesAddUp(window: int)
    requires BUCKETS <= window
    ensures (forall buckets, now, later, first: nat, second: nat {:trigger AddsUp(buckets, window, now, later, first, second)} ::
               |buckets| == BUCKETS && window <= now && window <= later && now / Span(window) == later / Span(window) ==>
                 AddsUp(buckets, window, now, later, first, second)) <==> EPOCH % Span(window) == 0
    ensures EPOCH % Span(window) != 0 ==> forall k: int {:trigger CellLoses(window, k)} :: window <= k * Span(window) ==> CellLoses(window, k)
  {
    var span := Span(window);
    if EPOCH % span == 0 {
      forall buckets: seq<Bucket>, now: int, later: int, first: nat, second: nat
        | |buckets| == BUCKETS && window <= now && window <= later && now / span == later / span
        ensures AddsUp(buckets, window, now, later, first, second)
      {
        GridAgrees(now, span);
        GridAgrees(later, span);
      }
    } else {
      forall k: int {:trigger CellLoses(window, k)} | window <= k * span ensures CellLoses(window, k) {
        CellLosesOne(window, k);
      }
      MulMonotone(1, span, window);
      assert CellLoses(window, window);
      var now, later :| LosesAt(window, window, now, later);
      var empty := seq(BUCKETS, _ => Bucket(0, 0));
      assert !AddsUp(empty, window, now, later, 1, 1);
    }
  }

  /** In this cell of the grid there are two times at which charges never add up. */
  ghost predicate CellLoses(window: int, k: int)
    requires BUCKETS <= window
  {
    exists now, later :: LosesAt(window, k, now, later)
  }

  ghost predicate LosesAt(window: int, k: int, now: int, later: int)
    requires BUCKETS <= window
  {
    && window <= now < later && now / Span(window) == later / Span(window) == k
    && forall buckets, first: nat, second: nat {:trigger AddsUp(buckets, window, now, later, first, second)} ::
         |buckets| == BUCKETS ==> !AddsUp(buckets, window, now, later, first, second)
  }

  lemma CellLosesOne(window: int, k: int)
    requires BUCKETS <= window <= k * Span(window) && EPOCH % Span(window) != 0
    ensures CellLoses(window, k)
  {
    var span := Span(window);
    var move := (k + 1) * span - EPOCH % span;
    assert (k + 1) * span == k * span + span;
    var now := move - 1;
    StartMoves(span, k, now, move);
    forall buckets: seq<Bucket>, first: nat, second: nat {:trigger AddsUp(buckets, window, now, move, first, second)} | |buckets| == BUCKETS
      ensures !AddsUp(buckets, window, now, move, first, second)
    {
      SecondWipesFirst(buckets, window, k, now, move, first, second);
    }
    assert LosesAt(window, k, now, move);
  }

  /** A window of seven minutes has spans of seven seconds, which do not divide the epoch: at this time in 2026 a charge wipes
      out the one made four seconds before. */
  lemma SevenMinutes(buckets: seq<Bucket>, first: nat, second: nat)
    requires |buckets| == BUCKETS
    ensures var now, span := 1_767_229_198 * SECOND, 7 * SECOND;
            var c, d := NewCharge(7 * MINUTE, now, first), NewCharge(7 * MINUTE, now + 4 * SECOND, second);
            && Span(7 * MINUTE) == span && EPOCH % span != 0 && c.slot == d.slot && c.start < d.start
            && AfterCharge(AfterCharge(buckets, c.slot, c.start, first), d.slot, d.start, second)[d.slot] == Bucket(d.start, second)
  {
    var now := 1_767_229_198 * SECOND;
    SecondWipesFirst(buckets, 7 * MINUTE, 252_461_314, now, now + 4 * SECOND, first, second);
  }

  lemma {:induction false} CountedSingle(buckets: seq<Bucket>, n: nat, slot: nat, cutoff: int)
    requires n <= |buckets| && forall i :: 0 <= i < |buckets| && i != slot ==> buckets[i].tokens == 0
    ensures Counted(buckets, n, cutoff) == if slot < n && buckets[slot].start > cutoff then buckets[slot].tokens else 0
  {
    if n > 0 {
      CountedSingle(buckets, n - 1, slot, cutoff);
    }
  }

  lemma BooksCharge(buckets: seq<Bucket>, v: View, window: int, now: int, amount: nat)
    requires Books(buckets, v, window, now)
    ensures var c := NewCharge(window, now, amount); Books(AfterCharge(buckets, c.slot, c.start, amount), Charged(v, c), window, now)
  {
    RingsCharge(buckets, v.log, window, now, amount);
    TrackedCharge(v, NewCharge(window, now, amount));
  }

  lemma TrackedCharge(v: View, c: Charge)
    requires Tracked(v)
    ensures Tracked(Charged(v, c))
  {
    var w := Charged(v, c);
    forall x | x in w.entry ensures Recorded(w, x) {
      assert Recorded(v, x);
    }
    forall x | x in w.live ensures Backed(w, x) {
      assert Backed(v, x);
    }
    forall x, y | x in w.entry && y in w.entry && x != y ensures Apart(w, x, y) {
      assert Apart(v, x, y);
    }
  }

  lemma BooksSettle(buckets: seq<Bucket>, v: View, window: int, clock: int, id: string)
    requires Books(buckets, v, window, clock) && id in v.live
    ensures var r := v.live[id];
            && r.slot < |buckets| && (buckets[r.slot].start == r.start ==> r.reserved <= buckets[r.slot].tokens)
            && Books(AfterRefund(buckets, r.slot, r.start, r.reserved), Settled(v, {id}), window, clock)
    ensures |Settled(v, {id}).live| == |v.live| - 1
  {
    Fewer(v.live, id);
    SettledTracked(v, id);
    SettledLogOne(v.log, v.entry, id);
    RingsRefund(buckets, v.log, window, clock, v.entry[id]);
  }

  /** The charge just made becomes a reservation. */
  lemma TrackedIssue(v: View, c: Charge, id: string, r: Reservation)
    requires Tracked(v) && id !in v.entry && r.id == id && Stamped(r, c) && !c.settled
    ensures Tracked(Issued(Charged(v, c), id, r)) && id !in v.live
    ensures |Issued(Charged(v, c), id, r).live| == |v.live| + 1
  {
    assert id !in v.live by {
      assert id in v.live ==> Backed(v, id);
    }
    var w := Issued(Charged(v, c), id, r);
    forall x | x in w.entry ensures Recorded(w, x) {
      assert x != id ==> Recorded(v, x);
    }
    forall x | x in w.live ensures Backed(w, x) {
      assert x != id ==> Backed(v, x);
    }
    forall x, y | x in w.entry && y in w.entry && x != y ensures Apart(w, x, y) {
      assert x != id ==> Recorded(v, x);
      assert y != id ==> Recorded(v, y);
      assert x != id && y != id ==> Apart(v, x, y);
    }
  }

  /** The counted usage compared with what is taken. */
  ghost predicate Measures(used: int, buckets: seq<Bucket>, window: int, now: int) {
    |buckets| == BUCKETS && used == Counted(buckets, BUCKETS, now - window)
  }

  lemma UsageTaken(buckets: seq<Bucket>, v: View, window: int, now: int, used: int)
    requires Books(buckets, v, window, now) && Measures(used, buckets, window, now)
    ensures EPOCH % Span(window) == 0 ==> Taken(v, window, now) <= used
    ensures Even(window) ==> Taken(v, window, now) == used
  {
    if EPOCH % Span(window) == 0 {
      UsageIs(buckets, v.log, window, now);
    }
  }

  lemma TakenMore(v: View, window: int, now: int, amount: nat, id: string, r: Reservation)
    requires BUCKETS <= window <= now
    ensures var c := NewCharge(window, now, amount); Taken(Issued(Charged(v, c), id, r), window, now) == Taken(v, window, now) + amount
  {
    OldestBounds(now, window);
    SumAppend(v.log, NewCharge(window, now, amount), Since(Oldest(now, Span(window))));
  }

  /** Once charged, an amount becomes a reservation and the books stay exact. */
  lemma IssueKeeps(buckets: seq<Bucket>, v: View, window: int, now: int, amount: nat, id: string, r: Reservation)
    requires BUCKETS <= window <= now && Tracked(v) && id !in v.entry && r.id == id && Stamped(r, NewCharge(window, now, amount))
    requires Books(buckets, Charged(v, NewCharge(window, now, amount)), window, now)
    ensures var v' := Issued(Charged(v, NewCharge(window, now, amount)), id, r);
            && Books(buckets, v', window, now) && |v'.live| == |v.live| + 1
            && Taken(v', window, now) == Taken(v, window, now) + amount
  {
    TakenMore(v, window, now, amount, id, r);
    TrackedIssue(v, NewCharge(window, now, amount), id, r);
  }

  // ---------------------------------------------------------------------------------------------
  // Runs of one subject.
  // ---------------------------------------------------------------------------------------------

  datatype Op = Reserving(id: string, subject: string, amount: nat, now: int, r: Result<Reservation, LimitError>)
              | Committing(id: string, actual: nat, now: int)
              | Releasing(id: string)

  ghost predicate Takes(limits: Limits, v: View, op: Op, v': View) {
    match op
    case Reserving(id, subject, amount, now, r) =>
      BUCKETS <= limits.window <= now && id !in v.entry && Admits(limits, v, v', id, subject, amount, now, r)
    case Committing(id, actual, now) =>
      && BUCKETS <= limits.window <= now
      && v' == (if id in v.live then Charged(Settled(v, {id}), NewCharge(limits.window, now, actual)) else v)
    case Releasing(id) => v' == if id in v.live then Settled(v, {id}) else v
  }

  /** The views of a subject between its operations. */
  ghost predicate Run(limits: Limits, views: seq<View>, ops: seq<Op>) {
    && |views| == |ops| + 1 && views[0] == View([], map[], map[])
    && (forall i: nat {:trigger StepAt(limits, views, ops, i)} :: i < |ops| ==> StepAt(limits, views, ops, i))
    && (forall i: nat, j: nat {:trigger InOrder(ops, i, j)} :: i < j < |ops| ==> InOrder(ops, i, j))
  }

  ghost predicate StepAt(limits: Limits, views: seq<View>, ops: seq<Op>, i: nat)
    requires i < |ops| && |views| == |ops| + 1
  {
    Takes(limits, views[i], ops[i], views[i + 1])
  }

  /** Time does not run backwards. */
  ghost predicate InOrder(ops: seq<Op>, i: nat, j: nat)
    requires i < j < |ops|
  {
    ops[i].Reserving? && ops[j].Reserving? ==> ops[i].now <= ops[j].now
  }

  /** The operation admitted a reservation, which has not been committed or released up to operation n. */
  ghost predicate Outstanding(ops: seq<Op>, i: nat, n: nat) {
    && i <= n < |ops| && ops[i].Reserving? && ops[i].r.Success?
    && forall k {:trigger ops[k]} :: i < k <= n && !ops[k].Reserving? ==> ops[k].id != ops[i].id
  }

  lemma SettledAllTracked(v: View, gone: set<string>)
    requires Tracked(v) && gone <= v.live.Keys
    ensures Tracked(Settled(v, gone))
  {
    var w := Settled(v, gone);
    forall x | x in w.entry ensures Recorded(w, x) {
      assert Recorded(v, x);
      if x in gone {
        assert ChargedFor(v.entry, gone, v.entry[x]);
      } else {
        forall y | y in gone && y in v.entry ensures v.entry[y] != v.entry[x] {
          assert Apart(v, y, x);
        }
      }
    }
    forall x | x in w.live ensures Backed(w, x) {
      assert Backed(v, x) && Recorded(w, x);
    }
    forall x, y | x in w.entry && y in w.entry && x != y ensures Apart(w, x, y) {
      assert Apart(v, x, y);
    }
  }

  lemma AdmissionTracked(limits: Limits, v: View, v': View, id: string, subject: string, amount: nat, now: int,
                         r: Result<Reservation, LimitError>)
    requires BUCKETS <= limits.window <= now && Tracked(v) && id !in v.entry && Admits(limits, v, v', id, subject, amount, now, r)
    ensures Tracked(v')
    ensures r.Success? ==> id in v'.live && v'.live[id] == r.value && r.value.reserved == amount && r.value.issuedAt == now
  {
    var w, c := Swept(v, limits.ttl, now), NewCharge(limits.window, now, amount);
    SettledAllTracked(v, Expired(v.live, limits.ttl, now));
    if r.Success? {
      TrackedIssue(w, c, id, r.value);
    }
  }

  lemma TakesTracked(limits: Limits, v: View, op: Op, v': View)
    requires Tracked(v) && Takes(limits, v, op, v')
    ensures Tracked(v')
  {
    match op
    case Reserving(id, subject, amount, now, r) => AdmissionTracked(limits, v, v', id, subject, amount, now, r);
    case Committing(id, actual, now) =>
      if id in v.live {
        SettledTracked(v, id);
        TrackedCharge(Settled(v, {id}), NewCharge(limits.window, now, actual));
      }
    case Releasing(id) =>
      if id in v.live {
        SettledTracked(v, id);
      }
  }

  /** An operation that does not settle a reservation, and comes before its time is over, leaves it. */
  lemma TakesLeaves(limits: Limits, v: View, op: Op, v': View, id: string)
    requires Tracked(v) && Takes(limits, v, op, v') && id in v.live && (!op.Reserving? ==> op.id != id)
    requires op.Reserving? ==> op.now - v.live[id].issuedAt < limits.ttl
    ensures Stays(v, v', id)
  {
    assert Backed(v, id) && Recorded(v, id);
    match op
    case Reserving(_, subject, amount, now, r) => AdmissionIsTimely(limits, v, v', op.id, subject, amount, now, r);
    case Committing(other, _, _) => LeavesOther(v, id, other);
    case Releasing(other) => LeavesOther(v, id, other);
  }

  lemma LeavesOther(v: View, id: string, other: string)
    requires Tracked(v) && id in v.live && id != other
    ensures other in v.live ==> Stays(v, Settled(v, {other}), id)
  {
    assert Backed(v, id) && Recorded(v, id);
    if other in v.live {
      assert Backed(v, other) && Recorded(v, other) && Apart(v, id, other);
      SettledLogOne(v.log, v.entry, other);
    }
  }

  lemma {:induction false} RunTracked(limits: Limits, views: seq<View>, ops: seq<Op>, n: nat)
    requires Run(limits, views, ops) && n <= |ops|
    ensures Tracked(views[n])
  {
    if n > 0 {
      RunTracked(limits, views, ops, n - 1);
      assert StepAt(limits, views, ops, n - 1);
      TakesTracked(limits, views[n - 1], ops[n - 1], views[n]);
    }
  }

  /** The reservation is live after operation n as it was issued. */
  ghost predicate Alive(ops: seq<Op>, i: nat, v: View)
    requires i < |ops| && ops[i].Reserving?
  {
    ops[i].id in v.live && v.live[ops[i].id].issuedAt == ops[i].now && v.live[ops[i].id].reserved == ops[i].amount
  }

  /** An admission that is neither committed nor released is live for the time that it was given. */
  lemma {:induction false} StaysAlive(limits: Limits, views: seq<View>, ops: seq<Op>, i: nat, n: nat)
    requires Run(limits, views, ops) && Outstanding(ops, i, n)
    requires forall k {:trigger ops[k]} :: i < k <= n && ops[k].Reserving? ==> ops[k].now - ops[i].now < limits.ttl
    ensures Alive(ops, i, views[n + 1])
    decreases n
  {
    RunTracked(limits, views, ops, n);
    assert StepAt(limits, views, ops, n);
    if n == i {
      AdmissionTracked(limits, views[n], views[n + 1], ops[n].id, ops[n].subject, ops[n].amount, ops[n].now, ops[n].r);
    } else {
      StaysAlive(limits, views, ops, i, n - 1);
      TakesLeaves(limits, views[n], ops[n], views[n + 1], ops[i].id);
    }
  }

  ghost predicate Admissions(ops: seq<Op>, picks: seq<nat>) {
    forall k :: 0 <= k < |picks| ==> picks[k] < |ops| && ops[picks[k]].Reserving?
  }

  function Total(ops: seq<Op>, picks: seq<nat>): nat
    requires forall k :: 0 <= k < |picks| ==> picks[k] < |ops| && ops[picks[k]].Reserving?
  {
    if picks == [] then 0 else ops[picks[0]].amount + Total(ops, picks[1..])
  }

  /** The charge of an admission is in its place in the log, on the books. */
  ghost predicate ChargedAt(log: seq<Charge>, at: nat, op: Op) {
    op.Reserving? && at < |log| && !log[at].settled && log[at].time == op.now && log[at].amount == op.amount
  }

  /** Charges in different places of the log are all part of the sum. */
  lemma {:induction false} SumOfPicks(log: seq<Charge>, since: int, at: seq<nat>, ops: seq<Op>, picks: seq<nat>)
    requires Distinct(at) && |at| == |picks| && Admissions(ops, picks)
    requires forall k {:trigger at[k]} :: 0 <= k < |at| ==> ChargedAt(log, at[k], ops[picks[k]])
    requires forall k {:trigger picks[k]} :: 0 <= k < |picks| ==> ops[picks[k]].now >= since
    ensures Total(ops, picks) <= SumIf(log, Since(since))
    decreases |at|
  {
    if picks != [] {
      var i := at[0];
      assert ChargedAt(log, i, ops[picks[0]]);
      SumSettle(log, i, Since(since));
      var left := log[i := log[i].(settled := true)];
      forall k | 0 <= k < |at[1..]| ensures ChargedAt(left, at[1..][k], ops[picks[1..][k]]) {
        assert ChargedAt(log, at[k + 1], ops[picks[k + 1]]) && at[k + 1] != i;
      }
      SumOfPicks(left, since, at[1..], ops, picks[1..]);
    }
  }

  /** Young enough to be live still. */
  ghost predicate Young(limits: Limits, ops: seq<Op>, i: nat, n: nat) {
    Outstanding(ops, i, n) && ops[n].Reserving? && ops[n].now - ops[i].now < limits.ttl
  }

  /** Young enough also to count in every window that ends now. */
  ghost predicate Counts(limits: Limits, ops: seq<Op>, i: nat, n: nat)
    requires BUCKETS <= limits.window
  {
    Young(limits, ops, i, n) && ops[i].now >= ops[n].now - limits.window + Span(limits.window)
  }

  /** Whatever has been admitted within its time to live and the last window less one span, and has been neither committed nor
      released, fits the quota together at every admission. */
  lemma AdmissionsFit(limits: Limits, views: seq<View>, ops: seq<Op>, n: nat, picks: seq<nat>)
    requires Even(limits.window) && limits.tokensPerWindow > 0 && Run(limits, views, ops)
    requires n < |ops| && ops[n].Reserving? && ops[n].r.Success? && Distinct(picks)
    requires forall k {:trigger picks[k]} :: 0 <= k < |picks| ==> Counts(limits, ops, picks[k], n)
    ensures Admissions(ops, picks) && Total(ops, picks) <= limits.tokensPerWindow
  {
    QuotaAt(limits, views, ops, n);
    var at := Places(limits, views, ops, n, picks);
    AllRecent(limits, ops, n, picks, ops[n].now - limits.window + Span(limits.window));
    SumOfPicks(views[n + 1].log, ops[n].now - limits.window + Span(limits.window), at, ops, picks);
  }

  lemma AllRecent(limits: Limits, ops: seq<Op>, n: nat, picks: seq<nat>, since: int)
    requires BUCKETS <= limits.window && n < |ops| && ops[n].Reserving? && since == ops[n].now - limits.window + Span(limits.window)
    requires forall k {:trigger picks[k]} :: 0 <= k < |picks| ==> Counts(limits, ops, picks[k], n)
    ensures Admissions(ops, picks) && forall k {:trigger picks[k]} :: 0 <= k < |picks| ==> ops[picks[k]].now >= since
  {
  }

  lemma QuotaAt(limits: Limits, views: seq<View>, ops: seq<Op>, n: nat)
    requires Even(limits.window) && limits.tokensPerWindow > 0 && Run(limits, views, ops)
    requires n < |ops| && ops[n].Reserving? && ops[n].r.Success?
    ensures SumIf(views[n + 1].log, Since(ops[n].now - limits.window + Span(limits.window))) <= limits.tokensPerWindow
  {
    assert StepAt(limits, views, ops, n);
    QuotaHolds(limits, views[n], views[n + 1], ops[n].id, ops[n].subject, ops[n].amount, ops[n].now, ops[n].r);
  }

  /** Where in the log the charges of these admissions are. */
  lemma {:induction false} Places(limits: Limits, views: seq<View>, ops: seq<Op>, n: nat, picks: seq<nat>) returns (at: seq<nat>)
    requires BUCKETS <= limits.window && Run(limits, views, ops) && Distinct(picks) && n < |ops|
    requires forall k {:trigger picks[k]} :: 0 <= k < |picks| ==> Counts(limits, ops, picks[k], n)
    ensures Admissions(ops, picks) && |at| == |picks| && Distinct(at)
    ensures forall k {:trigger at[k]} :: 0 <= k < |at| ==>
              ChargedAt(views[n + 1].log, at[k], ops[picks[k]]) && EntryIs(views[n + 1], ops, picks[k], at[k])
    decreases |picks|
  {
    if picks == [] {
      at := [];
    } else {
      var rest := Places(limits, views, ops, n, picks[1..]);
      assert Counts(limits, ops, picks[0], n);
      var first := Place(limits, views, ops, picks[0], n);
      forall k | 0 <= k < |rest| ensures rest[k] != first {
        assert picks[0] != picks[k + 1] && picks[1..][k] == picks[k + 1] && Counts(limits, ops, picks[k + 1], n);
        PlacesDiffer(limits, views, ops, picks[0], picks[k + 1], n, first, rest[k]);
      }
      at := [first] + rest;
    }
  }

  ghost predicate EntryIs(v: View, ops: seq<Op>, i: nat, at: nat) {
    i < |ops| && ops[i].Reserving? && ops[i].id in v.entry && v.entry[ops[i].id] == at
  }

  lemma Place(limits: Limits, views: seq<View>, ops: seq<Op>, i: nat, n: nat) returns (at: nat)
    requires BUCKETS <= limits.window && Run(limits, views, ops) && Counts(limits, ops, i, n)
    ensures ChargedAt(views[n + 1].log, at, ops[i]) && EntryIs(views[n + 1], ops, i, at)
  {
    YoungAll(limits, views, ops, i, n);
    StaysAlive(limits, views, ops, i, n);
    RunTracked(limits, views, ops, n + 1);
    assert Backed(views[n + 1], ops[i].id) && Recorded(views[n + 1], ops[i].id);
    at := views[n + 1].entry[ops[i].id];
  }

  lemma YoungAll(limits: Limits, views: seq<View>, ops: seq<Op>, i: nat, n: nat)
    requires Run(limits, views, ops) && Young(limits, ops, i, n)
    ensures forall k {:trigger ops[k]} :: i < k <= n && ops[k].Reserving? ==> ops[k].now - ops[i].now < limits.ttl
  {
    forall k | i < k <= n && ops[k].Reserving? ensures ops[k].now <= ops[n].now {
      assert k < n ==> InOrder(ops, k, n);
    }
  }

  lemma PlacesDiffer(limits: Limits, views: seq<View>, ops: seq<Op>, i: nat, j: nat, n: nat, a: nat, b: nat)
    requires BUCKETS <= limits.window && Run(limits, views, ops) && i != j && Counts(limits, ops, i, n) && Counts(limits, ops, j, n)
    requires EntryIs(views[n + 1], ops, i, a) && EntryIs(views[n + 1], ops, j, b)
    ensures a != b
  {
    RunTracked(limits, views, ops, n + 1);
    IdsDiffer(limits, views, ops, i, j, n);
    assert Apart(views[n + 1], ops[i].id, ops[j].id);
  }

  /** An identifier is not given out again while it is on the books. */
  lemma DifferentIds(limits: Limits, views: seq<View>, ops: seq<Op>, i: nat, j: nat, n: nat)
    requires Run(limits, views, ops) && i < j && Young(limits, ops, i, n) && Young(limits, ops, j, n)
    ensures ops[i].id != ops[j].id
  {
    YoungAll(limits, views, ops, i, n);
    StaysAlive(limits, views, ops, i, j - 1);
    RunTracked(limits, views, ops, j);
    assert Backed(views[j], ops[i].id);
    assert StepAt(limits, views, ops, j);
  }

  /** Whatever has been admitted within its time to live, and has been neither committed nor released, fits the free places at
      every admission. */
  lemma PlacesFit(limits: Limits, views: seq<View>, ops: seq<Op>, n: nat, picks: seq<nat>)
    requires limits.maxConcurrent > 0 && Run(limits, views, ops)
    requires n < |ops| && ops[n].Reserving? && ops[n].r.Success? && Distinct(picks)
    requires forall k {:trigger picks[k]} :: 0 <= k < |picks| ==> Young(limits, ops, picks[k], n)
    ensures |picks| <= limits.maxConcurrent
  {
    assert StepAt(limits, views, ops, n);
    PlacesAt(limits, views[n], views[n + 1], ops[n].id, ops[n].subject, ops[n].amount, ops[n].now, ops[n].r);
    var ids := LiveIds(limits, views, ops, n, picks);
    Smaller(ids, views[n + 1].live.Keys);
  }

  lemma PlacesAt(limits: Limits, v: View, v': View, id: string, subject: string, amount: nat, now: int, r: Result<Reservation, LimitError>)
    requires BUCKETS <= limits.window <= now && limits.maxConcurrent > 0 && r.Success?
    requires Admits(limits, v, v', id, subject, amount, now, r)
    ensures |v'.live.Keys| <= limits.maxConcurrent
  {
    var w := Swept(v, limits.ttl, now);
    assert v'.live.Keys == w.live.Keys + {id};
    assert |w.live.Keys| == |w.live|;
  }

  lemma Smaller<T>(a: set<T>, b: set<T>)
    requires a <= b
    ensures |a| <= |b|
  {
    assert b == a + (b - a);
  }

  /** The identifiers of different admissions, all of them live. */
  lemma {:induction false} LiveIds(limits: Limits, views: seq<View>, ops: seq<Op>, n: nat, picks: seq<nat>) returns (ids: set<string>)
    requires Run(limits, views, ops) && n < |ops| && Distinct(picks)
    requires forall k {:trigger picks[k]} :: 0 <= k < |picks| ==> Young(limits, ops, picks[k], n)
    ensures |ids| == |picks| && ids <= views[n + 1].live.Keys
    ensures forall id :: id in ids ==> exists k :: 0 <= k < |picks| && Issues(ops, picks[k], id)
    decreases |picks|
  {
    ids := {};
    if picks != [] {
      var rest := LiveIds(limits, views, ops, n, picks[1..]);
      assert Young(limits, ops, picks[0], n);
      var id := ops[picks[0]].id;
      YoungAll(limits, views, ops, picks[0], n);
      StaysAlive(limits, views, ops, picks[0], n);
      forall x | x in rest ensures x != id && exists k :: 0 <= k < |picks| && Issues(ops, picks[k], x) {
        var k :| 0 <= k < |picks[1..]| && Issues(ops, picks[1..][k], x);
        assert picks[1..][k] == picks[k + 1] && picks[0] != picks[k + 1] && Young(limits, ops, picks[k + 1], n);
        IdsDiffer(limits, views, ops, picks[0], picks[k + 1], n);
      }
      assert Issues(ops, picks[0], id);
      ids := rest + {id};
    }
  }

  ghost predicate Issues(ops: seq<Op>, i: nat, id: string) { i < |ops| && ops[i].Reserving? && ops[i].id == id }

  lemma IdsDiffer(limits: Limits, views: seq<View>, ops: seq<Op>, i: nat, j: nat, n: nat)
    requires Run(limits, views, ops) && i != j && Young(limits, ops, i, n) && Young(limits, ops, j, n)
    ensures ops[i].id != ops[j].id
  {
    if i < j {
      DifferentIds(limits, views, ops, i, j, n);
    } else {
      DifferentIds(limits, views, ops, j, i, n);
    }
  }

  /** A request is refused for want of a place exactly if as many reservations as allowed are younger than their time to live. */
  lemma FullIffRefused(limits: Limits, v: View, v': View, id: string, subject: string, amount: nat, now: int,
                       r: Result<Reservation, LimitError>)
    requires BUCKETS <= limits.window <= now && Admits(limits, v, v', id, subject, amount, now, r)
    ensures r == Failure(TooManyInFlight) <==>
            limits.maxConcurrent > 0 && |set x | x in v.live && now - v.live[x].issuedAt < limits.ttl| >= limits.maxConcurrent
  {
    var w := Swept(v, limits.ttl, now);
    assert w.live.Keys == set x | x in v.live && now - v.live[x].issuedAt < limits.ttl;
    assert |w.live.Keys| == |w.live|;
  }

  // ---------------------------------------------------------------------------------------------
  // One subject.
  // ---------------------------------------------------------------------------------------------

  /** The window state of one subject, with the log it stands for. */
  class Subject {
    var window: int
    var buckets: seq<Bucket>
    var inflight: int
    var live: Live
    ghost var log: seq<Charge>
    ghost var entry: map<string, nat>
    ghost var clock: int

    ghost function Viewed(): View
      reads this
    {
      View(log, entry, live)
    }

    /** The books are exact, and the count of requests in flight is that of the live reservations. */
    ghost predicate Valid()
      reads this
    {
      Books(buckets, Viewed(), window, clock) && inflight == |live|
    }

    constructor (window: int, ghost now: int)
      requires BUCKETS <= window <= now
      ensures Valid() && this.window == window && clock == now && Viewed() == View([], map[], map[])
      ensures buckets == seq(BUCKETS, _ => Bucket(0, 0))
    {
      this.window := window;
      buckets := seq(BUCKETS, _ => Bucket(0, 0));
      inflight, live := 0, map[];
      log, entry, clock := [], map[], now;
      new;
      TruncateBounds(now, Span(window));
    }

    /** Time passes. */
    ghost method Tick(now: int)
      requires Valid() && clock <= now
      modifies this`clock
      ensures Valid() && clock == now
    {
      AgedLater(buckets, log, window, clock, now);
      clock := now;
    }

    /** The window changes while nothing on the books falls into the new one. */
    method ChangeWindow(other: int)
      requires Valid() && BUCKETS <= other <= clock && (other == window || Quiet(log, clock - other))
      modifies this`window
      ensures Valid() && window == other
    {
      if other != window {
        QuietChange(buckets, log, window, other, clock);
      }
      window := other;
    }

    /** What the window holds, dropping the buckets that left it. */
    method CurrentUsage(now: int) returns (total: int)
      requires Valid() && clock == now
      modifies this`buckets
      ensures Valid()
      ensures EPOCH % Span(window) == 0 ==> Taken(Viewed(), window, now) <= total
      ensures Even(window) ==> Taken(Viewed(), window, now) == total
    {
      ghost var before := buckets;
      total := 0;
      var cutoff := now - window;
      for i := 0 to BUCKETS
        invariant Valid() && forall s :: i <= s < BUCKETS ==> buckets[s] == before[s]
        invariant total == Counted(before, i, cutoff)
      {
        if buckets[i].start <= cutoff {
          DropKeeps(buckets, log, window, now, i);
          buckets := buckets[i := Bucket(0, 0)];
        } else {
          total := total + buckets[i].tokens;
        }
      }
      UsageTaken(before, Viewed(), window, now, total);
    }

    /** Adds tokens to the bucket of the current time, whatever the books say. */
    method Add(given: int, now: int, tokens: nat) returns (slot: nat, start: int)
      requires BUCKETS <= given <= now && |buckets| == BUCKETS
      modifies this`buckets
      ensures slot == NewCharge(given, now, tokens).slot && start == NewCharge(given, now, tokens).start
      ensures buckets == AfterCharge(old(buckets), slot, start, tokens)
    {
      var span := Span(given);
      slot, start := Slot(now, span), Truncate(now, span);
      var b := buckets[slot];
      if b.start != start {
        b := Bucket(start, 0);
      }
      buckets := buckets[slot := Bucket(b.start, b.tokens + tokens)];
    }

    /** Charges tokens at the current time. */
    method Charge(now: int, tokens: nat) returns (slot: nat, start: int)
      requires Valid() && clock == now
      modifies this`buckets, this`log
      ensures Valid() && slot == NewCharge(window, now, tokens).slot && start == NewCharge(window, now, tokens).start
      ensures Viewed() == Charged(old(Viewed()), NewCharge(window, now, tokens))
    {
      BooksCharge(buckets, Viewed(), window, now, tokens);
      slot, start := Add(window, now, tokens);
      log := log + [NewCharge(window, now, tokens)];
    }

    /** Takes tokens out of the bucket they were charged to, unless it has been reused since. */
    method Refund(slot: nat, start: int, tokens: nat)
      modifies this`buckets
      ensures buckets == if slot < |old(buckets)| then AfterRefund(old(buckets), slot, start, tokens) else old(buckets)
    {
      if slot >= |buckets| {
        return;
      }
      var b := buckets[slot];
      if b.start != start {
        return;
      }
      buckets := buckets[slot := Bucket(b.start, AtLeastZero(b.tokens - tokens))];
    }

    /** Settles a live reservation: it is gone, it no longer counts as in flight, and its charge is given back in full. */
    method Settle(id: string)
      requires Valid() && id in live
      modifies this`buckets, this`inflight, this`live, this`log
      ensures Valid() && Viewed() == Settled(old(Viewed()), {id})
      ensures inflight == old(inflight) - 1
    {
      ghost var v := Viewed();
      BooksSettle(buckets, v, window, clock, id);
      var r := live[id];
      live := live - {id};
      inflight := AtLeastZero(inflight - 1);
      Refund(r.slot, r.start, r.reserved);
      log := Settled(v, {id}).log;
    }

    /** Settles a live reservation if it outlived its time. */
    method SettleExpired(id: string, ttl: int, now: int) returns (expired: bool)
      requires Valid() && id in live
      modifies this`buckets, this`inflight, this`live, this`log
      ensures Valid() && expired == IsExpired(old(live)[id], ttl, now)
      ensures Viewed() == if expired then Settled(old(Viewed()), {id}) else old(Viewed())
    {
      expired := IsExpired(live[id], ttl, now);
      if expired {
        Settle(id);
      }
    }

    /** Settles every reservation that outlived its time, in whatever order they come. */
    method Sweep(ttl: int, now: int)
      requires Valid() && clock == now
      modifies this`buckets, this`inflight, this`live, this`log
      ensures Valid() && Viewed() == Swept(old(Viewed()), ttl, now) && Timely(old(Viewed()), Viewed(), ttl, now)
    {
      ghost var v := Viewed();
      ghost var gone: set<string> := {};
      var todo := live.Keys;
      SettledNone(v);
      while todo != {}
        invariant Valid() && Viewed() == Settled(v, gone) && Sifted(v.live, todo, gone, ttl, now)
        decreases todo
      {
        var id :| id in todo;
        assert live == v.live - gone;
        SiftNext(v.live, todo, gone, ttl, now, id);
        todo := todo - {id};
        SettledMore(v, gone, id);
        var expired := SettleExpired(id, ttl, now);
        gone := if expired then gone + {id} else gone;
      }
      SiftedAll(v.live, gone, ttl, now);
      SweepIsTimely(v, ttl, now);
    }

    /** Charges what a request may use and keeps the reservation. */
    method Issue(id: string, subject: string, amount: nat, now: int) returns (r: Reservation)
      requires Valid() && clock == now && id !in entry
      modifies this`buckets, this`inflight, this`live, this`log, this`entry
      ensures Valid() && var c := NewCharge(window, now, amount);
              && r == Reservation(id, subject, amount, now, c.slot, c.start)
              && Viewed() == Issued(Charged(old(Viewed()), c), id, r)
      ensures Taken(Viewed(), window, now) == Taken(old(Viewed()), window, now) + amount
    {
      ghost var w, c := Viewed(), NewCharge(window, now, amount);
      var slot, start := Charge(now, amount);
      r := Reservation(id, subject, amount, now, slot, start);
      IssueKeeps(buckets, w, window, now, amount, id, r);
      entry := entry[id := |log| - 1];
      live := live[id := r];
      inflight := inflight + 1;
      assert Viewed() == Issued(Charged(w, c), id, r);
    }

    /** Admits a request and charges what it may use, or refuses it. */
    method Reserve(limits: Limits, id: string, subject: string, amount: nat, now: int) returns (r: Result<Reservation, LimitError>)
      requires Valid() && clock <= now && limits.window == window && id !in entry
      modifies this
      ensures Valid() && clock == now && window == old(window)
      ensures Answers(limits, old(Viewed()), Viewed(), id, subject, amount, now, r)
    {
      r := Admit(limits, id, subject, amount, now);
      AdmissionIsTimely(limits, old(Viewed()), Viewed(), id, subject, amount, now, r);
    }

    method Admit(limits: Limits, id: string, subject: string, amount: nat, now: int) returns (r: Result<Reservation, LimitError>)
      requires Valid() && clock <= now && limits.window == window && id !in entry
      modifies this
      ensures Valid() && clock == now && window == old(window)
      ensures Admits(limits, old(Viewed()), Viewed(), id, subject, amount, now, r)
    {
      Tick(now);
      Sweep(limits.ttl, now);
      if limits.maxConcurrent > 0 && inflight >= limits.maxConcurrent {
        return Failure(TooManyInFlight);
      }
      if limits.tokensPerWindow > 0 {
        var used := CurrentUsage(now);
        if used + amount > limits.tokensPerWindow {
          return Failure(QuotaExceeded);
        }
      }
      var res := Issue(id, subject, amount, now);
      r := Success(res);
    }

    /** Settles a reservation and charges what was really used; a reservation settled before is refused. */
    method Commit(r: Reservation, actual: nat, now: int) returns (e: Result<(), LimitError>)
      requires Valid() && clock <= now && (r.id in live ==> live[r.id] == r)
      modifies this
      ensures Valid() && clock == now && window == old(window)
      ensures old(r.id in live) ==>
                e == Success(()) && Viewed() == Charged(Settled(old(Viewed()), {r.id}), NewCharge(window, now, actual))
      ensures old(r.id !in live) ==> e == Failure(UnknownReservation) && Viewed() == old(Viewed())
    {
      Tick(now);
      if r.id !in live {
        return Failure(UnknownReservation);
      }
      Settle(r.id);
      var _, _ := Charge(now, actual);
      e := Success(());
    }

    /** Settles a reservation without charging anything. */
    method Release(r: Reservation) returns (e: Result<(), LimitError>)
      requires Valid() && (r.id in live ==> live[r.id] == r)
      modifies this
      ensures Valid() && clock == old(clock) && window == old(window)
      ensures old(r.id in live) ==> e == Success(()) && Viewed() == Settled(old(Viewed()), {r.id})
      ensures old(r.id !in live) ==> e == Failure(UnknownReservation) && Viewed() == old(Viewed())
    {
      if r.id !in live {
        return Failure(UnknownReservation);
      }
      Settle(r.id);
      e := Success(());
    }
  }

  /** A subject whose window is changed to ten minutes and back within one second. A charge of this very second is not
      counted any more, and giving it back later takes out what was charged after it. */
  method ChangedTwice(first: nat, second: nat, third: nat) returns (s: Subject, ghost counted: int)
    ensures |s.buckets| == BUCKETS && counted == second
    ensures Counted(s.buckets, BUCKETS, LATE - MINUTE) == AtLeastZero(third - first)
  {
    s := new Subject(MINUTE, LATE);
    LateSlots(first);
    LateSlots(second);
    LateSlots(third);
    var slot, start := s.Add(MINUTE, LATE, first);
    var _, _ := s.Add(10 * MINUTE, LATE, second);
    CountedSingle(s.buckets, BUCKETS, 59, LATE - 10 * MINUTE);
    counted := Counted(s.buckets, BUCKETS, LATE - 10 * MINUTE);
    var _, _ := s.Add(MINUTE, LATE, third);
    s.Refund(slot, start, first);
    CountedSingle(s.buckets, BUCKETS, 59, LATE - MINUTE);
  }

  // ---------------------------------------------------------------------------------------------
  // All subjects.
  // ---------------------------------------------------------------------------------------------

  const NEW := View([], map[], map[])

  function IdOf(subject: string, n: nat): string { subject + "#" + Vault.Decimal(n) }

  ghost predicate IsIdOf(subject: string, id: string, most: nat) {
    exists n: nat :: n <= most && id == IdOf(subject, n)
  }

  lemma NextIdIsNew(subject: string, seqNo: nat)
    ensures !IsIdOf(subject, IdOf(subject, seqNo + 1), seqNo)
  {
    forall n: nat | n <= seqNo ensures IdOf(subject, n) != IdOf(subject, seqNo + 1) {
      if IdOf(subject, n) == IdOf(subject, seqNo + 1) {
        assert IdOf(subject, n)[|subject| + 1..] == Vault.Decimal(n);
        assert IdOf(subject, seqNo + 1)[|subject| + 1..] == Vault.Decimal(seqNo + 1);
        Vault.DecimalInjective(n, seqNo + 1);
      }
    }
  }

  /** A subject's window is sound, and every reservation has a number given out so far. */
  ghost predicate Sound(st: Subject, subject: string, window: int, seqNo: nat, clock: int)
    reads st
  {
    && st.Valid() && st.window == window && st.clock <= clock
    && IdsBelow(st.Viewed(), subject, seqNo)
  }

  lemma SoundLater(st: Subject, subject: string, window: int, seqNo: nat, clock: int, seqNo': nat, clock': int)
    requires Sound(st, subject, window, seqNo, clock) && seqNo <= seqNo' && clock <= clock'
    ensures Sound(st, subject, window, seqNo', clock')
  {
    forall id | id in st.entry ensures IsIdOf(subject, id, seqNo') {
      assert IsIdOf(subject, id, seqNo);
    }
  }

  function LimitsFor(limits: map<string, Limits>, fallback: Limits, subject: string): Limits {
    if subject in limits then limits[subject] else fallback
  }

  ghost predicate IdsBelow(v: View, subject: string, seqNo: nat) {
    forall id {:trigger IsIdOf(subject, id, seqNo)} :: id in v.entry ==> IsIdOf(subject, id, seqNo)
  }

  lemma IdsAfter(limits: Limits, v: View, v': View, subject: string, seqNo: nat, seqNo': nat, amount: nat, now: int,
                 r: Result<Reservation, LimitError>)
    requires BUCKETS <= limits.window <= now && IdsBelow(v, subject, seqNo) && seqNo' == (if r.Success? then seqNo + 1 else seqNo)
    requires Admits(limits, v, v', IdOf(subject, seqNo + 1), subject, amount, now, r)
    ensures IdsBelow(v', subject, seqNo')
  {
    forall id | id in v'.entry ensures IsIdOf(subject, id, seqNo') {
      assert id in v.entry ==> IsIdOf(subject, id, seqNo);
    }
  }

  /** Admission by one sound subject, which stays sound. */
  method ReserveSound(st: Subject, own: Limits, subject: string, seqNo: nat, id: string, amount: nat, now: int)
    returns (r: Result<Reservation, LimitError>)
    requires Sound(st, subject, own.window, seqNo, now) && BUCKETS <= own.window <= now && id == IdOf(subject, seqNo + 1)
    modifies st
    ensures Sound(st, subject, own.window, if r.Success? then seqNo + 1 else seqNo, now)
    ensures Answers(own, old(st.Viewed()), st.Viewed(), id, subject, amount, now, r)
  {
    NextIdIsNew(subject, seqNo);
    assert id !in st.entry;
    ghost var v := st.Viewed();
    r := st.Reserve(own, id, subject, amount, now);
    IdsAfter(own, v, st.Viewed(), subject, seqNo, if r.Success? then seqNo + 1 else seqNo, amount, now, r);
  }

  class Limiter {
    var limits: map<string, Limits>
    const fallback: Limits
    var states: map<string, Subject>
    var seqNo: nat
    ghost var clock: int

    ghost function ViewOf(subject: string): View
      reads this, if subject in states then {states[subject]} else {}
    {
      if subject in states then states[subject].Viewed() else NEW
    }

    /** Every subject has its own sound window. */
    ghost predicate Valid()
      reads this, states.Values
    {
      && (forall s {:trigger LimitsFor(limits, fallback, s)} :: BUCKETS <= LimitsFor(limits, fallback, s).window <= clock)
      && (forall s {:trigger s in states} :: s in states ==> Sound(states[s], s, LimitsFor(limits, fallback, s).window, seqNo, clock))
      && (forall s, t {:trigger states[s], states[t]} :: s in states && t in states && states[s] == states[t] ==> s == t)
    }

    constructor (fallback: Limits, ghost now: int)
      requires BUCKETS <= fallback.Normalized().window <= now
      ensures Valid() && clock == now && states == map[]
    {
      this.fallback, limits, states, seqNo, clock := fallback.Normalized(), map[], map[], 0, now;
    }

    /** Time passes. */
    ghost method Tick(now: int)
      requires Valid() && clock <= now
      modifies this`clock
      ensures Valid() && clock == now
      ensures forall s {:trigger ViewOf(s)} :: ViewOf(s) == old(ViewOf(s))
    {
      forall s | s in states ensures Sound(states[s], s, LimitsFor(limits, fallback, s).window, seqNo, now) {
        SoundLater(states[s], s, LimitsFor(limits, fallback, s).window, seqNo, clock, seqNo, now);
      }
      clock := now;
    }

    method StateFor(subject: string) returns (st: Subject)
      requires Valid()
      modifies this`states
      ensures Valid() && subject in states && st == states[subject]
      ensures states == old(states)[subject := st] && st.Viewed() == old(ViewOf(subject))
      ensures if subject in old(states) then st == old(states)[subject] else fresh(st)
      ensures forall s {:trigger ViewOf(s)} :: ViewOf(s) == old(ViewOf(s))
    {
      if subject in states {
        st := states[subject];
      } else {
        st := new Subject(LimitsFor(limits, fallback, subject).window, clock);
        states := states[subject := st];
      }
    }

    /** Admission of a request that may use up to the given tokens. */
    method Reserve(subject: string, maxTokens: int, promptTokens: int, now: int) returns (r: Result<Reservation, LimitError>)
      requires Valid() && clock <= now
      modifies this, states.Values
      ensures Valid()
      ensures maxTokens < 0 || promptTokens < 0 ==> r == Failure(NegativeTokens) && forall s {:trigger ViewOf(s)} :: ViewOf(s) == old(ViewOf(s))
      ensures maxTokens >= 0 && promptTokens >= 0 ==>
                && subject in states && clock == now
                && Admits(LimitsFor(limits, fallback, subject), old(ViewOf(subject)), ViewOf(subject), IdOf(subject, old(seqNo) + 1), subject,
                          promptTokens + maxTokens, now, r)
                && forall s {:trigger ViewOf(s)} :: s != subject ==> ViewOf(s) == old(ViewOf(s))
    {
      if maxTokens < 0 || promptTokens < 0 {
        return Failure(NegativeTokens);
      }
      r := ReserveFor(subject, promptTokens + maxTokens, now);
    }

    method StateAt(subject: string, now: int) returns (st: Subject)
      requires Valid() && clock <= now
      modifies this`states, this`clock
      ensures Valid() && clock == now && subject in states && st == states[subject] && (subject in old(states) || fresh(st))
      ensures states == old(states)[subject := st] && (subject in old(states) ==> st == old(states)[subject])
      ensures st.Viewed() == old(ViewOf(subject))
      ensures forall s {:trigger ViewOf(s)} :: ViewOf(s) == old(ViewOf(s))
    {
      Tick(now);
      st := StateFor(subject);
    }

    method ReserveFor(subject: string, amount: nat, now: int) returns (r: Result<Reservation, LimitError>)
      requires Valid() && clock <= now
      modifies this, states.Values
      ensures Valid() && subject in states && clock == now
      ensures Admits(LimitsFor(limits, fallback, subject), old(ViewOf(subject)), ViewOf(subject), IdOf(subject, old(seqNo) + 1), subject, amount, now, r)
      ensures forall s {:trigger ViewOf(s)} :: s != subject ==> ViewOf(s) == old(ViewOf(s))
    {
      var st := StateAt(subject, now);
      r := ReserveIn(st, subject, IdOf(subject, seqNo + 1), amount, now);
    }

    method ReserveIn(st: Subject, subject: string, id: string, amount: nat, now: int) returns (r: Result<Reservation, LimitError>)
      requires Valid() && clock == now && subject in states && states[subject] == st && id == IdOf(subject, seqNo + 1)
      modifies this`seqNo, st
      ensures Valid()
      ensures Admits(LimitsFor(limits, fallback, subject), old(ViewOf(subject)), ViewOf(subject), id, subject, amount, now, r)
      ensures forall s {:trigger ViewOf(s)} :: s != subject ==> ViewOf(s) == old(ViewOf(s))
    {
      r := ReserveSound(st, LimitsFor(limits, fallback, subject), subject, seqNo, id, amount, now);
      seqNo := if r.Success? then seqNo + 1 else seqNo;
      assert Sound(st, subject, LimitsFor(limits, fallback, subject).window, seqNo, clock);
      OthersKept(subject);
      assert ViewOf(subject) == st.Viewed();
    }

    /** Whatever one subject does, the others stay as they were, and all is sound if it is. */
    twostate lemma OthersKept(subject: string)
      requires old(Valid()) && subject in states && states == old(states) && old(seqNo) <= seqNo && old(clock) == clock
      requires limits == old(limits) || exists own: Limits :: BUCKETS <= own.window <= clock && limits == old(limits)[subject := own]
      requires forall s {:trigger s in states} :: s in states && s != subject ==> unchanged(states[s])
      requires Sound(states[subject], subject, LimitsFor(limits, fallback, subject).window, seqNo, clock)
      ensures Valid() && forall s {:trigger ViewOf(s)} :: s != subject ==> ViewOf(s) == old(ViewOf(s))
    {
      assert forall s {:trigger LimitsFor(limits, fallback, s)} ::
          s != subject ==> LimitsFor(limits, fallback, s) == LimitsFor(old(limits), fallback, s);
      forall s | s in states && s != subject ensures Sound(states[s], s, LimitsFor(limits, fallback, s).window, seqNo, clock) {
        assert old(Sound(states[s], s, LimitsFor(limits, fallback, s).window, seqNo, clock));
        SoundLater(states[s], s, LimitsFor(limits, fallback, s).window, old(seqNo), clock, seqNo, clock);
      }
    }

    /** Settles a reservation and charges what was really used. Only the reservation's own subject changes. */
    method Commit(r: Reservation, actual: nat, now: int) returns (e: Result<(), LimitError>)
      requires Valid() && clock <= now && (r.id in ViewOf(r.subject).live ==> ViewOf(r.subject).live[r.id] == r)
      modifies this`clock, states.Values
      ensures Valid() && clock == now
      ensures var v, v' := old(ViewOf(r.subject)), ViewOf(r.subject);
              if r.id in v.live
              then e == Success(()) && v' == Charged(Settled(v, {r.id}), NewCharge(LimitsFor(limits, fallback, r.subject).window, now, actual))
              else e == Failure(UnknownReservation) && v' == v
      ensures forall s {:trigger ViewOf(s)} :: s != r.subject ==> ViewOf(s) == old(ViewOf(s))
    {
      Tick(now);
      if r.subject !in states {
        return Failure(UnknownReservation);
      }
      var st := states[r.subject];
      label Before:
      e := st.Commit(r, actual, now);
      OthersKept@Before(r.subject);
    }

    /** Settles a reservation without charging anything. */
    method Release(r: Reservation) returns (e: Result<(), LimitError>)
      requires Valid() && (r.id in ViewOf(r.subject).live ==> ViewOf(r.subject).live[r.id] == r)
      modifies states.Values
      ensures Valid()
      ensures var v, v' := old(ViewOf(r.subject)), ViewOf(r.subject);
              if r.id in v.live then e == Success(()) && v' == Settled(v, {r.id}) else e == Failure(UnknownReservation) && v' == v
      ensures forall s {:trigger ViewOf(s)} :: s != r.subject ==> ViewOf(s) == old(ViewOf(s))
    {
      if r.subject !in states {
        return Failure(UnknownReservation);
      }
      var st := states[r.subject];
      e := st.Release(r);
    }

    /** A subject's own limits. Its window can change in use while nothing on its books falls into the new one. */
    method SetLimits(subject: string, own: Limits)
      requires Valid() && BUCKETS <= own.Normalized().window <= clock
      requires subject in states && own.Normalized().window != LimitsFor(limits, fallback, subject).window ==>
                 Quiet(ViewOf(subject).log, states[subject].clock - own.Normalized().window)
                 && own.Normalized().window <= states[subject].clock
      modifies this`limits, states.Values
      ensures Valid() && limits == old(limits)[subject := own.Normalized()]
      ensures forall s {:trigger LimitsFor(limits, fallback, s)} ::
                LimitsFor(limits, fallback, s) == if s == subject then own.Normalized() else old(LimitsFor(limits, fallback, s))
      ensures forall s {:trigger ViewOf(s)} :: ViewOf(s) == old(ViewOf(s))
    {
      ghost var before := limits;
      limits := limits[subject := own.Normalized()];
      if subject in states {
        states[subject].ChangeWindow(own.Normalized().window);
        OthersKept(subject);
      } else {
        assert forall s {:trigger LimitsFor(limits, fallback, s)} ::
            LimitsFor(limits, fallback, s) == if s == subject then own.Normalized() else LimitsFor(before, fallback, s);
      }
    }
  }
}
