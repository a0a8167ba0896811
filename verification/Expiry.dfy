/** Which writes a sweep gives up, and how often sweeps happen. */
module Expiry {
  import opened Base
  import opened ReassemblySpec
  import opened ReassemblyRuns

  /** The reading taken at the latest usable record of a key, duplicates included. */
  ghost function LastSeen(ins: seq<Input>, k: Key): Option<int> {
    if ins == [] then None else
    var last := ins[|ins| - 1];
    if UsableFor(last, k) then Some(last.clock.last) else LastSeen(ins[..|ins| - 1], k)
  }

  lemma {:induction false} LastAtIsLastSeen(t0: int, cfg: Config, ins: seq<Input>, k: Key)
    ensures var t := Run(Init(t0), cfg, ins).table;
            k in t ==> LastSeen(ins, k) == Some(t[k].lastAt)
  {
    if ins == [] {
    } else {
      var before, last := ins[..|ins| - 1], ins[|ins| - 1];
      LastAtIsLastSeen(t0, cfg, before, k);
      if last.Record? && Usable(last.ev) {
        StepShape(Run(Init(t0), cfg, before), cfg, last.ev, last.clock);
      }
    }
  }

  /** The table when the sweep of the last record looks at it. */
  ghost function BeforeSweep(t0: int, cfg: Config, ins: seq<Input>, ev: SslEvent, c: Clock): State {
    Accept(Run(Init(t0), cfg, ins), cfg.cap, ev, c)
  }

  lemma {:induction false} AcceptedLastSeen(t0: int, cfg: Config, ins: seq<Input>, ev: SslEvent, c: Clock, k: Key)
    requires Usable(ev)
    ensures var t := BeforeSweep(t0, cfg, ins, ev, c).table;
            k in t ==> LastSeen(ins + [Record(ev, c)], k) == Some(t[k].lastAt)
  {
    LastAtIsLastSeen(t0, cfg, ins, k);
    assert (ins + [Record(ev, c)])[..|ins|] == ins;
  }

  lemma {:induction false} LastSeenIsLatest(ins: seq<Input>, k: Key)
    requires forall i, j :: 0 <= i < j < |ins| && ins[i].Record? && ins[j].Record? ==>
               ins[i].clock.last <= ins[j].clock.last
    ensures forall q :: 0 <= q < |ins| && UsableFor(ins[q], k) ==>
              LastSeen(ins, k).Some? && ins[q].clock.last <= LastSeen(ins, k).value
    ensures LastSeen(ins, k).Some? ==>
              exists q :: 0 <= q < |ins| && UsableFor(ins[q], k) && ins[q].clock.last == LastSeen(ins, k).value
  {
    if ins != [] && !UsableFor(ins[|ins| - 1], k) {
      var before := ins[..|ins| - 1];
      LastSeenIsLatest(before, k);
      if LastSeen(ins, k).Some? {
        var q :| 0 <= q < |before| && UsableFor(before[q], k) && before[q].clock.last == LastSeen(ins, k).value;
        assert UsableFor(ins[q], k);
      }
      forall q | 0 <= q < |ins| && UsableFor(ins[q], k)
        ensures LastSeen(ins, k).Some? && ins[q].clock.last <= LastSeen(ins, k).value
      {
        assert before[q] == ins[q];
      }
    }
  }

  /** With a monotone clock, the sweep that follows a record gives up exactly the writes of which
      every record so far, duplicates included, is more than the TTL old. So a write whose key
      keeps being heard at gaps of at most the TTL is never given up. */
  lemma {:induction false} SweepExact(t0: int, cfg: Config, ins: seq<Input>, ev: SslEvent, c: Clock)
    requires Usable(ev)
    requires var all := ins + [Record(ev, c)];
             forall i, j :: 0 <= i < j < |all| && all[i].Record? && all[j].Record? ==>
               all[i].clock.last <= all[j].clock.last
    requires c.check - Run(Init(t0), cfg, ins).lastCleanup >= 1_000_000_000
    ensures var all := ins + [Record(ev, c)];
            var before, after := BeforeSweep(t0, cfg, ins, ev, c), Run(Init(t0), cfg, all);
            && after.lastCleanup == c.now
            && (forall k :: k in after.table <==>
                  k in before.table
                  && exists q :: 0 <= q < |all| && UsableFor(all[q], k) && c.now - all[q].clock.last <= cfg.ttl)
            && (forall k :: k in after.table ==> after.table[k] == before.table[k])
            && after.sweeps == before.sweeps + [Sweep(c.now, before.table.Keys - after.table.Keys)]
  {
    var all := ins + [Record(ev, c)];
    assert all[..|all| - 1] == ins;
    var before, after := BeforeSweep(t0, cfg, ins, ev, c), Run(Init(t0), cfg, all);
    assert after == MaybeSweep(before, cfg.ttl, c);
    hide Run, Accept;
    forall k
      ensures k in after.table <==>
                k in before.table
                && exists q :: 0 <= q < |all| && UsableFor(all[q], k) && c.now - all[q].clock.last <= cfg.ttl
    {
      AcceptedLastSeen(t0, cfg, ins, ev, c, k);
      LastSeenIsLatest(all, k);
    }
    assert before.table.Keys - after.table.Keys == Expired(before.table, cfg.ttl, c.now);
  }

  ghost function SweepsAfter(t0: int, cfg: Config, ins: seq<Input>): seq<Sweep> {
    Run(Init(t0), cfg, ins).sweeps
  }

  /** A step adds at most one sweep, the one of the table it leaves. */
  lemma {:induction false} StepSweeps(s: State, cfg: Config, input: Input)
    ensures var s' := Step(s, cfg, input);
            || (s'.sweeps == s.sweeps && s'.lastCleanup == s.lastCleanup)
            || (&& input.Record? && Usable(input.ev) && input.clock.check - s.lastCleanup >= SECOND
                && s'.lastCleanup == input.clock.now
                && s'.sweeps == s.sweeps + [Sweep(input.clock.now,
                     Expired(Accept(s, cfg.cap, input.ev, input.clock).table, cfg.ttl, input.clock.now))])
  {
    hide Place, Expired, EntryFor;
  }

  /** The write was held when record n was looked at, and its latest record then was more than a TTL old. */
  ghost predicate IdleAt(t0: int, cfg: Config, ins: seq<Input>, k: Key, n: nat)
    requires n < |ins|
  {
    && ins[n].Record? && Usable(ins[n].ev)
    && k in BeforeSweep(t0, cfg, ins[..n], ins[n].ev, ins[n].clock).table
    && LastSeen(ins[..n + 1], k).Some? && ins[n].clock.now - LastSeen(ins[..n + 1], k).value > cfg.ttl
  }

  lemma {:induction false} LastSweep(t0: int, cfg: Config, ins: seq<Input>)
    requires ins != []
    ensures var before, last := ins[..|ins| - 1], ins[|ins| - 1];
            || SweepsAfter(t0, cfg, ins) == SweepsAfter(t0, cfg, before)
            || (&& last.Record? && Usable(last.ev)
                && SweepsAfter(t0, cfg, ins) == SweepsAfter(t0, cfg, before) + [Sweep(last.clock.now,
                     Expired(BeforeSweep(t0, cfg, before, last.ev, last.clock).table, cfg.ttl, last.clock.now))])
  {
    hide Step, Accept, Expired;
    StepSweeps(Run(Init(t0), cfg, ins[..|ins| - 1]), cfg, ins[|ins| - 1]);
  }

  lemma {:induction false} ExpiredIsIdle(t0: int, cfg: Config, ins: seq<Input>, k: Key, n: nat)
    requires n < |ins| && ins[n].Record? && Usable(ins[n].ev)
    requires k in Expired(BeforeSweep(t0, cfg, ins[..n], ins[n].ev, ins[n].clock).table, cfg.ttl, ins[n].clock.now)
    ensures IdleAt(t0, cfg, ins, k, n)
  {
    hide BeforeSweep;
    AcceptedLastSeen(t0, cfg, ins[..n], ins[n].ev, ins[n].clock, k);
    assert ins[..n] + [Record(ins[n].ev, ins[n].clock)] == ins[..n + 1];
  }

  /** The i-th sweep ran at record n, when the write was held and idle. */
  ghost predicate SweptAt(t0: int, cfg: Config, ins: seq<Input>, i: nat, k: Key, n: nat) {
    && n < |ins| && IdleAt(t0, cfg, ins, k, n)
    && |SweepsAfter(t0, cfg, ins[..n])| == i && |SweepsAfter(t0, cfg, ins[..n + 1])| == i + 1
    && SweepsAfter(t0, cfg, ins[..n + 1])[i].at == ins[n].clock.now
  }

  lemma {:induction false} SweptNow(t0: int, cfg: Config, ins: seq<Input>, i: nat, k: Key)
    requires ins != [] && i == |SweepsAfter(t0, cfg, ins[..|ins| - 1])| < |SweepsAfter(t0, cfg, ins)|
    requires k in SweepsAfter(t0, cfg, ins)[i].expired
    ensures SweptAt(t0, cfg, ins, i, k, |ins| - 1)
  {
    hide SweepsAfter, Expired, BeforeSweep, IdleAt, Usable;
    LastSweep(t0, cfg, ins);
    ExpiredIsIdle(t0, cfg, ins, k, |ins| - 1);
    assert ins == ins[..|ins|];
  }

  lemma {:induction false} SweptEarlier(t0: int, cfg: Config, ins: seq<Input>, i: nat, k: Key, n: nat)
    requires ins != [] && SweptAt(t0, cfg, ins[..|ins| - 1], i, k, n)
    ensures SweptAt(t0, cfg, ins, i, k, n)
  {
    hide SweepsAfter, BeforeSweep;
    var before := ins[..|ins| - 1];
    assert ins[n] == before[n] && ins[..n] == before[..n] && ins[..n + 1] == before[..n + 1];
  }

  lemma {:induction false} NoSweepsYet(t0: int, cfg: Config)
    ensures SweepsAfter(t0, cfg, []) == []
  {
  }

  /** Whatever the rest of the stream, a sweep gives up only writes it finds idle: the i-th sweep ran
      at some record, more than the TTL after the latest usable record of each key it gave up. */
  lemma {:induction false} ExpiredWasIdle(t0: int, cfg: Config, ins: seq<Input>, i: nat, k: Key) returns (n: nat)
    requires i < |SweepsAfter(t0, cfg, ins)| && k in SweepsAfter(t0, cfg, ins)[i].expired
    ensures SweptAt(t0, cfg, ins, i, k, n)
  {
    NoSweepsYet(t0, cfg);
    hide SweepsAfter, SweptAt, Expired, BeforeSweep, Usable;
    n := |ins| - 1;
    LastSweep(t0, cfg, ins);
    if i < |SweepsAfter(t0, cfg, ins[..|ins| - 1])| {
      n := ExpiredWasIdle(t0, cfg, ins[..|ins| - 1], i, k);
      SweptEarlier(t0, cfg, ins, i, k, n);
    } else {
      SweptNow(t0, cfg, ins, i, k);
    }
  }

  /** A write that is never idle while it is held, if only thanks to duplicates, is given up by no
      sweep of the run. */
  lemma {:induction false} HeardNeverExpires(t0: int, cfg: Config, ins: seq<Input>, k: Key)
    requires forall n :: 0 <= n < |ins| ==> !IdleAt(t0, cfg, ins, k, n)
    ensures forall i :: 0 <= i < |SweepsAfter(t0, cfg, ins)| ==> k !in SweepsAfter(t0, cfg, ins)[i].expired
  {
    if i: nat :| i < |SweepsAfter(t0, cfg, ins)| && k in SweepsAfter(t0, cfg, ins)[i].expired {
      var n := ExpiredWasIdle(t0, cfg, ins, i, k);
      assert false;
    }
  }

  ghost predicate Spaced(s: State, t0: int) {
    && s.lastCleanup == (if s.sweeps == [] then t0 else s.sweeps[|s.sweeps| - 1].at)
    && (s.sweeps != [] ==> s.sweeps[0].at - t0 >= 1_000_000_000)
    && (forall i :: 0 <= i < |s.sweeps| - 1 ==> s.sweeps[i + 1].at - s.sweeps[i].at >= 1_000_000_000)
  }

  /** Sweeps are at least one second apart, the first one second after the start. */
  lemma {:induction false} SweepSpacing(t0: int, cfg: Config, ins: seq<Input>)
    requires forall j :: 0 <= j < |ins| && ins[j].Record? ==> ins[j].clock.check <= ins[j].clock.now
    ensures Spaced(Run(Init(t0), cfg, ins), t0)
  {
    if ins == [] {
    } else {
      hide Step;
      SweepSpacing(t0, cfg, ins[..|ins| - 1]);
      StepSweeps(Run(Init(t0), cfg, ins[..|ins| - 1]), cfg, ins[|ins| - 1]);
    }
  }
}
