/** The ids one thread's calls get, as long as its state is never evicted. */
module CallIds {
  import opened Base
  import opened Probes

  /** Two consecutive calls taken for one write: same buffer and length, and the clock did not go
      back nor advance by more than 2 ms. */
  ghost predicate SameGroup(a: Call, b: Call) {
    a.buf == b.buf && a.num == b.num && a.now <= b.now <= a.now + DEDUP_WINDOW_NS
  }

  /** How many groups of consecutive same-write calls there are. */
  ghost function Groups(calls: seq<Call>): (g: nat)
    ensures g == 0 <==> calls == []
  {
    if calls == [] then 0
    else if |calls| == 1 then 1
    else Groups(calls[..|calls| - 1]) + (if SameGroup(calls[|calls| - 2], calls[|calls| - 1]) then 0 else 1)
  }

  /** The probe's state for the thread after these calls. */
  ghost function StateAfter(calls: seq<Call>): Option<CallState> {
    if calls == [] then None
    else Some(NextState(StateAfter(calls[..|calls| - 1]), calls[|calls| - 1]))
  }

  ghost function IdOf(calls: seq<Call>): u32
    requires calls != []
  {
    StateAfter(calls).value.lastCallId
  }

  /** The id of the g-th group. */
  function GroupId(g: nat): (id: u32)
    requires g > 0
    ensures id > 0
  {
    (g - 1) % 0xffff_ffff + 1
  }

  lemma {:induction false} GroupIdNext(g: nat)
    requires g > 0
    ensures GroupId(g + 1) == if GroupId(g) == 0xffff_ffff then 1 else GroupId(g) + 1
  {
  }

  /** The whole history in closed form: the id is the group number wrapped into 1..2^32-1, and the
      remembered call is the last one. */
  lemma {:induction false} IdClosedForm(calls: seq<Call>)
    requires calls != []
    ensures var c, st := calls[|calls| - 1], StateAfter(calls).value;
            st == CallState(c.buf, c.num, GroupId(Groups(calls)), c.now, GroupId(Groups(calls)))
  {
    var before := calls[..|calls| - 1];
    if before != [] {
      IdClosedForm(before);
      assert before[|before| - 1] == calls[|calls| - 2];
      GroupIdNext(Groups(before));
    }
  }

  lemma {:induction false} GroupsGrow(calls: seq<Call>, i: nat)
    requires i <= |calls|
    ensures Groups(calls[..i]) <= Groups(calls)
  {
    if i == |calls| {
      assert calls[..i] == calls;
    } else {
      GroupsGrow(calls[..|calls| - 1], i);
      assert calls[..|calls| - 1][..i] == calls[..i];
    }
  }

  lemma {:induction false} WrapEqual(a: nat, b: nat)
    requires 0 < a <= b
    ensures GroupId(a) == GroupId(b) <==> (b - a) % 0xffff_ffff == 0
  {
    var q, r := (a - 1) / 0xffff_ffff, (a - 1) % 0xffff_ffff;
    var d, s := (b - a) / 0xffff_ffff, (b - a) % 0xffff_ffff;
    assert b - 1 == (q + d) * 0xffff_ffff + (r + s);
  }

  /** Ids are never 0, even after the counter wraps. Of two calls of one thread, the ids are equal
      exactly when the number of groups between them is a multiple of 2^32 - 1: within that many
      groups, exactly the calls of one group share an id, and consecutive calls share one exactly
      when they are the same write. */
  lemma {:induction false} IdsIdentifyGroups(calls: seq<Call>, i: nat, j: nat)
    requires i < j < |calls|
    ensures 0 < IdOf(calls[..i + 1])
    ensures var between := Groups(calls[..j + 1]) - Groups(calls[..i + 1]);
            && between >= 0
            && (IdOf(calls[..i + 1]) == IdOf(calls[..j + 1]) <==> between % 0xffff_ffff == 0)
    ensures j == i + 1 ==>
              (IdOf(calls[..i + 1]) == IdOf(calls[..j + 1]) <==>
                calls[j].buf == calls[i].buf && calls[j].num == calls[i].num
                && 0 <= calls[j].now - calls[i].now <= 2_000_000)
  {
    var a, b := calls[..i + 1], calls[..j + 1];
    IdClosedForm(a);
    IdClosedForm(b);
    GroupsGrow(b, i + 1);
    assert b[..i + 1] == a;
    WrapEqual(Groups(a), Groups(b));
    if j == i + 1 {
      assert b[..j] == a;
    }
  }
}
