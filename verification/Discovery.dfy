/** The discovery-stream claim: a lease that its holder refreshes and anyone may take over
    once it has lapsed. Times are natural numbers of one fixed unit. */
module Discovery {
  import opened Octets
  import opened Avtp
  import Arithmetic

  const DISCOVERY_BROADCAST_STREAM_ID: StreamId :=
    StreamId([0xFF, 0xFF, 0xFF, 0xFF, 0xFF, 0xFF], 0)

  predicate IsBroadcast(id: StreamId) {
    id == DISCOVERY_BROADCAST_STREAM_ID
  }

  datatype Claim = Claim(claimant: StreamId, claimedAt: nat)

  /** Elapsed time, zero if `now` is earlier. */
  function SaturatingSince(now: nat, then_: nat): nat {
    if now < then_ then 0 else now - then_
  }

  predicate HasLapsed(c: Claim, now: nat, timeout: nat) {
    SaturatingSince(now, c.claimedAt) >= timeout
  }

  /** Who may act: anyone when unclaimed or lapsed, otherwise the holder. */
  predicate ClaimPermits(current: Option<Claim>, who: StreamId, now: nat, timeout: nat) {
    match current
    case None => true
    case Some(existing) => existing.claimant == who || HasLapsed(existing, now, timeout)
  }

  function TryClaim(current: Option<Claim>, claimant: StreamId, now: nat, timeout: nat): Result<Claim> {
    if IsBroadcast(claimant) then Err(InvalidParameter)
    else if ClaimPermits(current, claimant, now, timeout) then Ok(Claim(claimant, now))
    else Err(RequestRejected)
  }

  datatype AccessKind = Read | Configure

  function CheckAccess(
    current: Option<Claim>, requester: StreamId, kind: AccessKind, now: nat, timeout: nat): Result<()>
  {
    match kind
    case Read => Ok(())
    case Configure =>
      if IsBroadcast(requester) then Err(InvalidParameter)
      else if ClaimPermits(current, requester, now, timeout) then Ok(())
      else Err(UnauthorizedAccess)
  }

  // ── Single decisions ─────────────────────────────────────────────────────

  /** Mutual exclusion: if two different clients may configure at one moment, there is no
      live claim at that moment. */
  lemma ExclusiveConfigure(current: Option<Claim>, a: StreamId, b: StreamId, now: nat, timeout: nat)
    requires a != b
    requires CheckAccess(current, a, Configure, now, timeout).Ok?
    requires CheckAccess(current, b, Configure, now, timeout).Ok?
    ensures current.None? || HasLapsed(current.value, now, timeout)
  {
  }

  /** Configuring and claiming are granted to the same requesters at the same moments. */
  lemma ConfigureIffClaim(current: Option<Claim>, who: StreamId, now: nat, timeout: nat)
    ensures CheckAccess(current, who, Configure, now, timeout).Ok? <==> TryClaim(current, who, now, timeout).Ok?
    ensures CheckAccess(current, who, Read, now, timeout).Ok?
  {
  }

  /** Which attempts and accesses are refused, and with which error. The broadcast id, all-ones
      MAC and unique id zero, is refused whatever the claim; a different client while less than
      the timeout has passed since the claim; nobody else. A moment before the claim counts as
      no time passed. */
  lemma RefusedExactly(current: Option<Claim>, who: StreamId, now: nat, timeout: nat)
    ensures var broadcast := who == StreamId([0xFF, 0xFF, 0xFF, 0xFF, 0xFF, 0xFF], 0);
            var held := current.Some? && current.value.claimant != who
                        && (if now < current.value.claimedAt then 0 else now - current.value.claimedAt) < timeout;
            && TryClaim(current, who, now, timeout) ==
               (if broadcast then Err(InvalidParameter) else if held then Err(RequestRejected) else Ok(Claim(who, now)))
            && CheckAccess(current, who, Configure, now, timeout) ==
               (if broadcast then Err(InvalidParameter) else if held then Err(UnauthorizedAccess) else Ok(()))
            && CheckAccess(current, who, Read, now, timeout) == Ok(())
  {
  }

  // ── Runs ─────────────────────────────────────────────────────────────────

  datatype Attempt = Attempt(claimant: StreamId, now: nat)

  /** The claim after one attempt: replaced when granted, kept when refused. */
  function Next(current: Option<Claim>, a: Attempt, timeout: nat): Option<Claim> {
    var r := TryClaim(current, a.claimant, a.now, timeout);
    if r.Ok? then Some(r.value) else current
  }

  function After(current: Option<Claim>, run: seq<Attempt>, timeout: nat): Option<Claim>
    decreases run
  {
    if run == [] then current else After(Next(current, run[0], timeout), run[1..], timeout)
  }

  /** The attempt is granted and changes who holds the claim; the first grant counts. */
  predicate IsHandover(current: Option<Claim>, a: Attempt, timeout: nat) {
    && TryClaim(current, a.claimant, a.now, timeout).Ok?
    && (current.None? || current.value.claimant != a.claimant)
  }

  function Handovers(current: Option<Claim>, run: seq<Attempt>, timeout: nat): nat
    decreases run
  {
    if run == [] then 0
    else
      (if IsHandover(current, run[0], timeout) then 1 else 0)
      + Handovers(Next(current, run[0], timeout), run[1..], timeout)
  }

  ghost predicate Nondecreasing(run: seq<Attempt>) {
    forall i, j | 0 <= i < j < |run| :: run[i].now <= run[j].now
  }

  lemma {:induction false} AfterAppend(current: Option<Claim>, front: seq<Attempt>, back: seq<Attempt>, timeout: nat)
    ensures After(current, front + back, timeout) == After(After(current, front, timeout), back, timeout)
    decreases front
  {
    if front == [] {
      assert front + back == back;
    } else {
      assert (front + back)[1..] == front[1..] + back;
      AfterAppend(Next(current, front[0], timeout), front[1..], back, timeout);
    }
  }

  /** The broadcast id never holds the claim, in any run from an unclaimed stream. */
  lemma {:induction false} BroadcastNeverHolds(current: Option<Claim>, run: seq<Attempt>, timeout: nat)
    requires current.Some? ==> current.value.claimant != StreamId([0xFF, 0xFF, 0xFF, 0xFF, 0xFF, 0xFF], 0)
    ensures After(current, run, timeout).Some? ==>
              After(current, run, timeout).value.claimant != StreamId([0xFF, 0xFF, 0xFF, 0xFF, 0xFF, 0xFF], 0)
    decreases run
  {
    if run == [] {
    } else {
      BroadcastNeverHolds(Next(current, run[0], timeout), run[1..], timeout);
    }
  }

  // ── Bounded handover ─────────────────────────────────────────────────────

  /** One attempt moves the claim's time on by a whole timeout if it is a handover, and
      never back. */
  lemma AttemptCost(c: Claim, a: Attempt, timeout: nat)
    requires c.claimedAt <= a.now
    ensures Next(Some(c), a, timeout).Some?
    ensures var next := Next(Some(c), a, timeout).value;
            && c.claimedAt <= next.claimedAt <= a.now
            && (IsHandover(Some(c), a, timeout) ==> timeout <= next.claimedAt - c.claimedAt)
  {
  }

  /** Handovers after a claim established at `claimedAt` are at least the timeout apart. */
  lemma {:induction false} HandoversFromClaim(c: Claim, run: seq<Attempt>, timeout: nat)
    requires Nondecreasing(run) && run != [] && c.claimedAt <= run[0].now
    ensures Handovers(Some(c), run, timeout) * timeout <= run[|run| - 1].now - c.claimedAt
    decreases run
  {
    hide Next, IsHandover;
    AttemptCost(c, run[0], timeout);
    var next := Next(Some(c), run[0], timeout).value;
    var counted := if IsHandover(Some(c), run[0], timeout) then 1 else 0;
    assert counted * timeout <= next.claimedAt - c.claimedAt;
    var rest := run[1..];
    var later := Handovers(Some(next), rest, timeout);
    if rest == [] {
    } else {
      assert rest[|rest| - 1] == run[|run| - 1];
      HandoversFromClaim(next, rest, timeout);
    }
    Arithmetic.Distribute(counted, later, timeout);
  }

  /** In every run from an unclaimed stream the number of handovers, the first grant
      included, is at most one plus the run's duration over the timeout. */
  lemma {:induction false} HandoversBounded(run: seq<Attempt>, timeout: nat)
    requires timeout > 0 && run != [] && Nondecreasing(run)
    ensures Handovers(None, run, timeout) <= 1 + (run[|run| - 1].now - run[0].now) / timeout
    decreases run
  {
    var rest := run[1..];
    var next := Next(None, run[0], timeout);
    if rest == [] {
      assert Handovers(next, rest, timeout) == 0;
    } else {
      assert rest[|rest| - 1] == run[|run| - 1];
      if next.Some? {
        HandoversFromClaim(next.value, rest, timeout);
        Arithmetic.QuotientAtLeast(Handovers(next, rest, timeout), run[|run| - 1].now - run[0].now, timeout);
      } else {
        HandoversBounded(rest, timeout);
        Arithmetic.QuotientMonotone(run[|run| - 1].now - rest[0].now, run[|run| - 1].now - run[0].now, timeout);
      }
    }
  }

  /** `n + 1` attempts by two clients in turn, exactly one timeout apart. */
  function Alternating(a: StreamId, b: StreamId, start: nat, timeout: nat, n: nat): (run: seq<Attempt>)
    ensures |run| == n + 1 && run[0] == Attempt(a, start)
    decreases n
  {
    if n == 0 then [Attempt(a, start)]
    else [Attempt(a, start)] + Alternating(b, a, start + timeout, timeout, n - 1)
  }

  lemma {:induction false} AlternatingTimes(a: StreamId, b: StreamId, start: nat, timeout: nat, n: nat)
    ensures var run := Alternating(a, b, start, timeout, n);
            && run[n].now == start + n * timeout
            && (forall i | 0 <= i <= n :: start <= run[i].now)
            && Nondecreasing(run)
    decreases n
  {
    if n == 0 {
    } else {
      AlternatingTimes(b, a, start + timeout, timeout, n - 1);
      assert n * timeout == timeout + (n - 1) * timeout;
      var (run, rest) := (Alternating(a, b, start, timeout, n), Alternating(b, a, start + timeout, timeout, n - 1));
      assert forall i | 1 <= i <= n :: run[i] == rest[i - 1];
    }
  }

  lemma {:induction false} AlternatingHandsOver(
    current: Option<Claim>, a: StreamId, b: StreamId, start: nat, timeout: nat, n: nat)
    requires a != b && !IsBroadcast(a) && !IsBroadcast(b)
    requires current.Some? ==> current.value.claimant != a && current.value.claimedAt + timeout <= start
    ensures Handovers(current, Alternating(a, b, start, timeout, n), timeout) == n + 1
    decreases n
  {
    var run := Alternating(a, b, start, timeout, n);
    var next := Next(current, run[0], timeout);
    assert next == Some(Claim(a, start));
    if n == 0 {
      assert run[1..] == [];
      assert Handovers(next, run[1..], timeout) == 0;
    } else {
      assert run[1..] == Alternating(b, a, start + timeout, timeout, n - 1);
      AlternatingHandsOver(next, b, a, start + timeout, timeout, n - 1);
    }
  }

  /** The bound is attained: for every `n` there is a run lasting `n` timeouts with `n + 1`
      handovers. */
  lemma HandoverBoundTight(a: StreamId, b: StreamId, timeout: nat, n: nat)
    requires timeout > 0 && a != b && !IsBroadcast(a) && !IsBroadcast(b)
    ensures var run := Alternating(a, b, 0, timeout, n);
            && Nondecreasing(run)
            && run[n].now - run[0].now == n * timeout
            && Handovers(None, run, timeout) == n + 1
  {
    hide Handovers, Alternating, Nondecreasing;
    AlternatingHandsOver(None, a, b, 0, timeout, n);
    AlternatingTimes(a, b, 0, timeout, n);
  }

  // ── Non-displacement ─────────────────────────────────────────────────────

  /** When the holder last refreshed: at `since`, or its latest attempt in the run. */
  function LastRefresh(holder: StreamId, since: nat, run: seq<Attempt>): nat
    decreases run
  {
    if run == [] then since
    else LastRefresh(holder, if run[0].claimant == holder then run[0].now else since, run[1..])
  }

  /** The holder's successive refreshes are less than the timeout apart. */
  predicate KeptAlive(holder: StreamId, since: nat, run: seq<Attempt>, timeout: nat)
    decreases run
  {
    run == [] ||
    if run[0].claimant == holder
    then SaturatingSince(run[0].now, since) < timeout && KeptAlive(holder, run[0].now, run[1..], timeout)
    else KeptAlive(holder, since, run[1..], timeout)
  }

  /** While less than the timeout has passed since the last refresh the holder holds. */
  lemma {:induction false} HolderStays(holder: StreamId, since: nat, run: seq<Attempt>, now: nat, timeout: nat)
    requires !IsBroadcast(holder) && Nondecreasing(run)
    requires forall i | 0 <= i < |run| :: since <= run[i].now <= now
    requires KeptAlive(holder, since, run, timeout)
    requires now - LastRefresh(holder, since, run) < timeout
    ensures since <= LastRefresh(holder, since, run)
    ensures After(Some(Claim(holder, since)), run, timeout) == Some(Claim(holder, LastRefresh(holder, since, run)))
    decreases run
  {
    if run == [] {
    } else {
      var rest := run[1..];
      if run[0].claimant == holder {
        HolderStays(holder, run[0].now, rest, now, timeout);
      } else {
        if run[0].now - since >= timeout {
          LapsedStaysLapsed(holder, since, rest, run[0].now, timeout);
          assert false;
        }
        HolderStays(holder, since, rest, now, timeout);
      }
    }
  }

  /** A holder that let its claim lapse cannot refresh within the timeout again. */
  lemma {:induction false} LapsedStaysLapsed(holder: StreamId, since: nat, run: seq<Attempt>, now: nat, timeout: nat)
    requires KeptAlive(holder, since, run, timeout)
    requires forall i | 0 <= i < |run| :: now <= run[i].now
    requires since + timeout <= now
    ensures LastRefresh(holder, since, run) == since
    decreases run
  {
    if run == [] {
    } else {
      LapsedStaysLapsed(holder, since, run[1..], now, timeout);
    }
  }

  /** Non-displacement: whatever the interleaving, a holder whose refreshes are less than the
      timeout apart keeps the claim; no attempt by anyone else made less than the timeout
      after its last refresh is granted, and nobody else passes the configure check then. */
  lemma NotDisplaced(holder: StreamId, since: nat, run: seq<Attempt>, other: StreamId, now: nat, timeout: nat)
    requires !IsBroadcast(holder) && other != holder && Nondecreasing(run)
    requires forall i | 0 <= i < |run| :: since <= run[i].now <= now
    requires KeptAlive(holder, since, run, timeout)
    requires since <= now && now - LastRefresh(holder, since, run) < timeout
    ensures var current := After(Some(Claim(holder, since)), run, timeout);
            && current == Some(Claim(holder, LastRefresh(holder, since, run)))
            && TryClaim(current, other, now, timeout).Err?
            && Next(current, Attempt(other, now), timeout) == current
            && CheckAccess(current, other, Configure, now, timeout).Err?
            && CheckAccess(current, holder, Configure, now, timeout).Ok?
  {
    HolderStays(holder, since, run, now, timeout);
    LastRefreshBound(holder, since, run, now);
  }

  lemma {:induction false} LastRefreshBound(holder: StreamId, since: nat, run: seq<Attempt>, now: nat)
    requires since <= now && forall i | 0 <= i < |run| :: run[i].now <= now
    ensures LastRefresh(holder, since, run) <= now
    decreases run
  {
    if run == [] {
    } else {
      LastRefreshBound(holder, if run[0].claimant == holder then run[0].now else since, run[1..], now);
    }
  }

  // ── Lease separation ─────────────────────────────────────────────────────

  /** The run's `i`-th attempt is granted. */
  predicate Granted(run: seq<Attempt>, i: nat, timeout: nat)
    requires i < |run|
  {
    TryClaim(After(None, run[..i], timeout), run[i].claimant, run[i].now, timeout).Ok?
  }

  /** The claim after one more attempt of the run. */
  lemma AfterOne(run: seq<Attempt>, i: nat, timeout: nat)
    requires i < |run|
    ensures After(None, run[..i + 1], timeout) == Next(After(None, run[..i], timeout), run[i], timeout)
  {
    assert run[..i + 1] == run[..i] + [run[i]];
    AfterAppend(None, run[..i], [run[i]], timeout);
    assert [run[i]][1..] == [];
  }

  /** From a grant on, the claim either stays with its holder or was established a whole
      timeout after the grant. */
  lemma {:induction false} HeldSince(run: seq<Attempt>, i: nat, j: nat, timeout: nat)
    requires Nondecreasing(run) && i < j <= |run| && Granted(run, i, timeout)
    ensures var current := After(None, run[..j], timeout);
            && current.Some?
            && run[i].now <= current.value.claimedAt <= run[j - 1].now
            && (current.value.claimant == run[i].claimant || current.value.claimedAt - run[i].now >= timeout)
    decreases j
  {
    hide After;
    AfterOne(run, j - 1, timeout);
    if j == i + 1 {
      assert After(None, run[..j], timeout) == Some(Claim(run[i].claimant, run[i].now));
    } else {
      HeldSince(run, i, j - 1, timeout);
      assert run[j - 2].now <= run[j - 1].now;
    }
  }

  /** Lease separation: any two grants to different clients in one run, adjacent or not, are
      at least the timeout apart. */
  lemma GrantsSeparated(run: seq<Attempt>, i: nat, j: nat, timeout: nat)
    requires Nondecreasing(run) && i < j < |run|
    requires Granted(run, i, timeout) && Granted(run, j, timeout)
    requires run[i].claimant != run[j].claimant
    ensures run[j].now - run[i].now >= timeout
  {
    hide After;
    HeldSince(run, i, j, timeout);
    assert run[j - 1].now <= run[j].now;
  }

  /** The `i`-th attempt is the run's last grant. */
  ghost predicate LastGrant(run: seq<Attempt>, i: nat, timeout: nat) {
    && i < |run| && Granted(run, i, timeout)
    && forall j | i < j < |run| :: !Granted(run, j, timeout)
  }

  /** The claim a run leaves is that of its last grant, if it has one. */
  lemma {:induction false} ClaimOfLastGrant(run: seq<Attempt>, n: nat, timeout: nat) returns (i: int)
    requires n <= |run|
    ensures -1 <= i < n
    ensures forall j | i < j < n :: !Granted(run, j, timeout)
    ensures After(None, run[..n], timeout) == if i == -1 then None else Some(Claim(run[i].claimant, run[i].now))
    ensures i >= 0 ==> Granted(run, i, timeout)
    decreases n
  {
    if n == 0 {
      i := -1;
    } else {
      hide After;
      AfterOne(run, n - 1, timeout);
      if Granted(run, n - 1, timeout) {
        i := n - 1;
      } else {
        i := ClaimOfLastGrant(run, n - 1, timeout);
      }
    }
  }

  /** What a run says about the next attempt: another client's succeeds if and only if there
      was no grant or the timeout has passed since the last one; the holder's own always
      succeeds. */
  lemma TakeoverIffLapsed(run: seq<Attempt>, who: StreamId, now: nat, timeout: nat)
    requires !IsBroadcast(who) && Nondecreasing(run)
    requires forall i | 0 <= i < |run| :: run[i].now <= now
    ensures TryClaim(After(None, run, timeout), who, now, timeout).Ok? <==>
              forall i | 0 <= i < |run| && LastGrant(run, i, timeout) ::
                run[i].claimant == who || now - run[i].now >= timeout
  {
    hide After;
    assert run[..|run|] == run;
    var last := ClaimOfLastGrant(run, |run|, timeout);
    if last >= 0 {
      assert LastGrant(run, last, timeout);
    }
  }
}
