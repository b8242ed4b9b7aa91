/** Limiting failed logins by source address (internal/web/access.go). Times are nanoseconds. */
module AuthLimiters {
  import opened GoStrings

  const LIMIT := 10
  const WINDOW := 60_000_000_000
  const BLOCK := 300_000_000_000

  // ---- what one failure does to the record of its source ----

  /** `blockedUntil` is None where the program has the zero time, which every clock reading is after. */
  datatype Record = Record(fails: seq<int>, blockedUntil: Option<int>)

  const EMPTY := Record([], None)

  /** Of the first `n` times, those after `cutoff`, in order. */
  function AfterIn(times: seq<int>, n: nat, cutoff: int): (r: seq<int>)
    requires n <= |times|
    ensures |r| <= n
  {
    if n == 0 then []
    else if times[n - 1] > cutoff then AfterIn(times, n - 1, cutoff) + [times[n - 1]]
    else AfterIn(times, n - 1, cutoff)
  }

  function After(times: seq<int>, cutoff: int): seq<int> {
    AfterIn(times, |times|, cutoff)
  }

  function Failed(r: Record, now: int): Record {
    var fails := After(r.fails, now - WINDOW) + [now];
    if |fails| >= LIMIT then Record([], Some(now + BLOCK)) else Record(fails, r.blockedUntil)
  }

  predicate Allows(r: Record, now: int) {
    r.blockedUntil.None? || now > r.blockedUntil.value
  }

  // ---- the program ----

  class AuthRecord {
    const times: array<int>  // the backing store of the list of failures
    var n: nat               // the length of that list
    var blockedUntil: Option<int>

    ghost predicate Valid()
      reads this
    {
      times.Length == LIMIT && n < LIMIT
    }

    ghost function View(): Record
      requires Valid()
      reads this, times
    {
      Record(times[..n], blockedUntil)
    }

    constructor ()
      ensures Valid() && View() == EMPTY && fresh(times)
    {
      times := new int[LIMIT];
      n := 0;
      blockedUntil := None;
    }

    /** `append(kept, now)`, where the first `kept` entries are the list. */
    method Append(kept: nat, now: int)
      requires kept < times.Length
      modifies this`n, times
      ensures n == kept + 1 && times[..n] == old(times[..kept]) + [now]
    {
      times[kept] := now;
      n := kept + 1;
    }

    /** The list is filtered within its own storage, then the new failure is appended. */
    method Fail(now: int)
      requires Valid()
      modifies this, times
      ensures Valid() && View() == Failed(old(View()), now)
    {
      var cutoff := now - WINDOW;
      var kept := 0;
      ghost var was := times[..n];
      var len := n;
      for i := 0 to len
        invariant kept <= i && blockedUntil == old(blockedUntil)
        invariant times[..kept] == AfterIn(was, i, cutoff)
        invariant forall x :: i <= x < len ==> times[x] == was[x]
      {
        if times[i] > cutoff {
          times[kept] := times[i];
          kept := kept + 1;
        }
      }
      Append(kept, now);
      assert times[..n] == After(was, cutoff) + [now];
      if n >= LIMIT {
        blockedUntil := Some(now + BLOCK);
        n := 0;
        assert times[..n] == [];
      }
    }
  }

  class AuthLimiter {
    var records: map<string, AuthRecord>

    ghost function Storage(): set<object>
      reads this
    {
      (set ip | ip in records :: records[ip] as object) + set ip | ip in records :: records[ip].times as object
    }

    /** The sources have records of their own. */
    ghost predicate Valid()
      reads this, Storage()
    {
      && (forall ip :: ip in records ==> records[ip].Valid())
      && (forall ip, other :: ip in records && other in records && ip != other ==>
            records[ip] != records[other] && records[ip].times != records[other].times)
    }

    /** The record of a source; of an unknown one, the empty record. */
    ghost function View(ip: string): Record
      requires Valid()
      reads this, Storage()
    {
      if ip in records then records[ip].View() else EMPTY
    }

    constructor ()
      ensures Valid() && forall ip :: View(ip) == EMPTY
    {
      records := map[];
    }

    method Allow(ip: string, now: int) returns (ok: bool)
      requires Valid()
      ensures ok <==> Allows(View(ip), now)
    {
      if ip !in records {
        return true;
      }
      var r := records[ip];
      ok := r.blockedUntil.None? || now > r.blockedUntil.value;
    }

    method Fail(ip: string, now: int)
      requires Valid()
      modifies this, Storage()
      ensures Valid() && View(ip) == Failed(old(View(ip)), now)
      ensures forall other :: other != ip ==> View(other) == old(View(other))
    {
      if ip !in records {
        var r := new AuthRecord();
        records := records[ip := r];
      }
      var r := records[ip];
      r.Fail(now);
    }

    method Pass(ip: string)
      requires Valid()
      modifies this
      ensures Valid() && View(ip) == EMPTY
      ensures forall other :: other != ip ==> View(other) == old(View(other))
    {
      records := records - {ip};
    }
  }

  // ---- runs ----

  datatype Event = Fail(now: int) | Pass

  function Step(r: Record, e: Event): Record {
    match e
    case Fail(now) => Failed(r, now)
    case Pass => EMPTY
  }

  /** The record of a source after the first `n` events, from none. */
  function Run(events: seq<Event>, n: nat): Record
    requires n <= |events|
  {
    if n == 0 then EMPTY else Step(Run(events, n - 1), events[n - 1])
  }

  /** The last reading of the clock in the first `n` events; `start` before them. */
  function Clock(start: int, events: seq<Event>, n: nat): int
    requires n <= |events|
  {
    if n == 0 then start
    else if events[n - 1].Fail? then events[n - 1].now
    else Clock(start, events, n - 1)
  }

  /** The clock never runs backwards. */
  predicate Monotone(start: int, events: seq<Event>, n: nat)
    requires n <= |events|
  {
    n > 0 ==>
      && Monotone(start, events, n - 1)
      && (events[n - 1].Fail? ==> Clock(start, events, n - 1) <= events[n - 1].now)
  }

  /** Every failure since the last pass or lock, where a lock is the tenth of these in one window. */
  function SinceReset(events: seq<Event>, n: nat): seq<int>
    requires n <= |events|
  {
    if n == 0 || events[n - 1].Pass? then []
    else Recorded(SinceReset(events, n - 1), events[n - 1].now)
  }

  /** One more failure, which resets the list if it is the tenth. */
  function Recorded(all: seq<int>, now: int): seq<int> {
    if |After(all + [now], now - WINDOW)| >= LIMIT then [] else all + [now]
  }

  lemma {:induction false} AfterInSnoc(times: seq<int>, x: int, n: nat, cutoff: int)
    requires n <= |times|
    ensures AfterIn(times + [x], n, cutoff) == AfterIn(times, n, cutoff)
  {
    if n > 0 {
      AfterInSnoc(times, x, n - 1, cutoff);
    }
  }

  lemma AfterSnoc(times: seq<int>, x: int, cutoff: int)
    ensures After(times + [x], cutoff) == if x > cutoff then After(times, cutoff) + [x] else After(times, cutoff)
  {
    AfterInSnoc(times, x, |times|, cutoff);
  }

  lemma {:induction false} AfterAfter(times: seq<int>, n: nat, c: int, d: int)
    requires n <= |times| && c <= d
    ensures After(AfterIn(times, n, c), d) == AfterIn(times, n, d)
  {
    if n > 0 {
      AfterAfter(times, n - 1, c, d);
      if times[n - 1] > c {
        AfterSnoc(AfterIn(times, n - 1, c), times[n - 1], d);
      }
    }
  }

  /** Pruning at every failure keeps what pruning once at the end would keep. */
  lemma PruneOnce(all: seq<int>, before: int, now: int)
    requires before <= now
    ensures After(After(all, before - WINDOW), now - WINDOW) + [now] == After(all + [now], now - WINDOW)
  {
    AfterAfter(all, |all|, before - WINDOW, now - WINDOW);
    AfterSnoc(all, now, now - WINDOW);
  }

  lemma FailKeepsAgreement(r: Record, all: seq<int>, before: int, now: int)
    requires r.fails == After(all, before - WINDOW) && |r.fails| < LIMIT && before <= now
    ensures var t := Failed(r, now);
      var inWindow := |After(all + [now], now - WINDOW)|;
      && t.fails == After(Recorded(all, now), now - WINDOW) && |t.fails| < LIMIT
      && inWindow <= LIMIT
      && (inWindow == LIMIT ==> t == Record([], Some(now + BLOCK)))
      && (inWindow < LIMIT ==> t.blockedUntil == r.blockedUntil)
  {
    PruneOnce(all, before, now);
  }

  /**
   The list a record keeps is the part inside the window of all failures since the last pass or lock,
   and it is shorter than the limit.
   */
  lemma {:induction false} PrunedIsInWindow(start: int, events: seq<Event>, n: nat)
    requires n <= |events| && Monotone(start, events, n)
    ensures Run(events, n).fails == After(SinceReset(events, n), Clock(start, events, n) - WINDOW)
    ensures |Run(events, n).fails| < LIMIT
  {
    if n > 0 {
      PrunedIsInWindow(start, events, n - 1);
      if events[n - 1].Fail? {
        FailKeepsAgreement(
          Run(events, n - 1), SinceReset(events, n - 1), Clock(start, events, n - 1), events[n - 1].now);
      }
    }
  }

  /** A failure locks the source exactly if it is the tenth in one window since the last pass or lock. */
  lemma LocksOnTheTenth(start: int, events: seq<Event>, n: nat)
    requires n < |events| && Monotone(start, events, n + 1) && events[n].Fail?
    ensures var r, t := Run(events, n), Run(events, n + 1);
      var now := events[n].now;
      var inWindow := |After(SinceReset(events, n) + [now], now - 60_000_000_000)|;
      && inWindow <= 10
      && (inWindow == 10 ==> t == Record([], Some(now + 300_000_000_000)))
      && (inWindow < 10 ==> t.blockedUntil == r.blockedUntil)
  {
    PrunedIsInWindow(start, events, n);
    FailKeepsAgreement(Run(events, n), SinceReset(events, n), Clock(start, events, n), events[n].now);
  }

  // ---- who is never locked out ----

  /** Every failure since the last pass. */
  function SincePass(events: seq<Event>, n: nat): seq<int>
    requires n <= |events|
  {
    if n == 0 || events[n - 1].Pass? then []
    else SincePass(events, n - 1) + [events[n - 1].now]
  }

  /** No window ever holds ten failures without a pass between them. */
  predicate NeverTen(events: seq<Event>, n: nat)
    requires n <= |events|
  {
    n > 0 ==>
      && NeverTen(events, n - 1)
      && (events[n - 1].Fail? ==> |After(SincePass(events, n), events[n - 1].now - 60_000_000_000)| < 10)
  }

  /** After each of the first `n` events, an attempt at any later time is allowed. */
  ghost predicate AlwaysAllowed(start: int, events: seq<Event>, n: nat)
    requires n <= |events|
  {
    && (forall now :: now >= Clock(start, events, n) ==> Allows(Run(events, n), now))
    && (n > 0 ==> AlwaysAllowed(start, events, n - 1))
  }

  /** A source that is never locked out is one that never fails ten times in one window, and conversely. */
  lemma {:induction false} AllowedExactlyWhenNeverTen(start: int, events: seq<Event>, n: nat)
    requires n <= |events| && Monotone(start, events, n)
    ensures AlwaysAllowed(start, events, n) <==> NeverTen(events, n)
    ensures NeverTen(events, n) ==>
      SinceReset(events, n) == SincePass(events, n) && Run(events, n).blockedUntil.None?
  {
    if n > 0 {
      AllowedExactlyWhenNeverTen(start, events, n - 1);
      if NeverTen(events, n - 1) && events[n - 1].Fail? {
        LocksOnTheTenth(start, events, n - 1);
        if !NeverTen(events, n) {
          assert !Allows(Run(events, n), events[n - 1].now);
        }
      }
    }
  }

  /** A lock lasts until the block time is over. */
  lemma LockLasts(start: int, events: seq<Event>, n: nat, later: int)
    requires n < |events| && Monotone(start, events, n + 1) && events[n].Fail?
    requires |After(SinceReset(events, n) + [events[n].now], events[n].now - 60_000_000_000)| >= 10
    ensures Allows(Run(events, n + 1), later) <==> later > events[n].now + 300_000_000_000
  {
    LocksOnTheTenth(start, events, n);
  }

  /** What is kept of a list of failures: those later than the cutoff, as often and in the order they are there. */
  lemma {:induction false} KeptAreLater(a: seq<int>, b: seq<int>, t: int, cutoff: int)
    ensures After([], cutoff) == [] && After(a + b, cutoff) == After(a, cutoff) + After(b, cutoff)
    ensures After([t], cutoff) == if cutoff < t then [t] else []
    decreases |b|
  {
    if b == [] {
      assert a + b == a;
    } else {
      var last := |b| - 1;
      assert (a + b)[..|a| + last] == a + b[..last];
      KeptAreLater(a, b[..last], t, cutoff);
      AfterLast(a + b, cutoff);
      AfterLast(b, cutoff);
    }
  }

  lemma AfterLast(s: seq<int>, cutoff: int)
    requires s != []
    ensures var last := |s| - 1;
      After(s, cutoff) == After(s[..last], cutoff) + if s[last] > cutoff then [s[last]] else []
  {
    SamePrefix(s, |s| - 1, cutoff);
  }

  lemma {:induction false} SamePrefix(s: seq<int>, n: nat, cutoff: int)
    requires n <= |s|
    ensures AfterIn(s, n, cutoff) == AfterIn(s[..n], n, cutoff)
    decreases n
  {
    if n > 0 {
      SamePrefix(s, n - 1, cutoff);
      SamePrefix(s[..n], n - 1, cutoff);
      assert s[..n][..n - 1] == s[..n - 1];
    }
  }
}
