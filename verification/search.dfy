/** The per-unit state of the address-arbitration round (search.c): a fixed
    table of slots overheard as taken by other units, the slot this unit will
    answer in (`selected`) and the one it has announced for the next round
    (`next`). Slots are numbered from 1; slot 0 means "no slot". */
module Search {
  import opened Bytes
  import Random

  /** MAXSLOTS: capacity of the used-slot table. */
  const MaxSlots: nat := 16
  /** MAXSLOTS << 2: draws tried before giving up with slot 0. */
  const MaxDraws: nat := 64

  /** The slots recorded in a table: the cells before the first zero cell. */
  function UsedPrefix(u: seq<byte>): (r: seq<byte>)
    ensures |r| <= |u|
    ensures forall i :: 0 <= i < |r| ==> r[i] != 0
  {
    if u == [] || u[0] == 0 then [] else [u[0]] + UsedPrefix(u[1..])
  }

  /** First-zero-terminated layout: once a cell is zero, so is every later
      cell. `search_start` establishes it and `search_add_used` keeps it. */
  ghost predicate Packed(u: seq<byte>)
  {
    forall i, j :: 0 <= i < j < |u| && u[i] == 0 ==> u[j] == 0
  }

  /** Index of the first zero cell, if any. */
  function FirstZero(u: seq<byte>): (r: Option<nat>)
    ensures r.Some? ==> r.value < |u| && u[r.value] == 0
    ensures r.Some? ==> forall i :: 0 <= i < r.value ==> u[i] != 0
    ensures r.None? ==> forall i :: 0 <= i < |u| ==> u[i] != 0
  {
    if u == [] then None
    else if u[0] == 0 then Some(0)
    else match FirstZero(u[1..])
      case None => None
      case Some(i) => Some(i + 1)
  }

  /** The table after `search_add_used(slot)`: the slot is written into the
      first zero cell; a full table is left as it is. */
  function AddSlot(u: seq<byte>, slot: byte): (r: seq<byte>)
    ensures |r| == |u|
  {
    match FirstZero(u)
    case None => u
    case Some(i) => u[i := slot]
  }

  /** In a packed table, the recorded slots are exactly the cells before the
      first zero cell, and there are as many of them as its index. */
  lemma {:induction false} UsedPrefixIsPrefix(u: seq<byte>)
    requires Packed(u)
    ensures FirstZero(u).None? ==> UsedPrefix(u) == u
    ensures FirstZero(u).Some? ==> UsedPrefix(u) == u[..FirstZero(u).value]
  {
    if u != [] && u[0] != 0 {
      assert Packed(u[1..]) by {
        forall i, j | 0 <= i < j < |u[1..]| && u[1..][i] == 0 ensures u[1..][j] == 0 {
          assert u[i + 1] == 0;
        }
      }
      UsedPrefixIsPrefix(u[1..]);
    }
  }

  /** Adding a nonzero slot to a packed table with room records it after the
      slots already recorded; adding to a full table, or adding slot 0,
      records nothing. The layout stays packed either way. */
  lemma AddSlotRecords(u: seq<byte>, slot: byte)
    requires Packed(u)
    ensures Packed(AddSlot(u, slot))
    ensures UsedPrefix(AddSlot(u, slot)) ==
      if slot != 0 && FirstZero(u).Some? then UsedPrefix(u) + [slot] else UsedPrefix(u)
  {
    var r := AddSlot(u, slot);
    UsedPrefixIsPrefix(u);
    match FirstZero(u)
    case None =>
    case Some(k) =>
      assert Packed(r) by {
        forall i, j | 0 <= i < j < |r| && r[i] == 0 ensures r[j] == 0 {
          if i == k {
            assert slot == 0;
          } else if j != k {
            assert u[i] == 0;
          }
        }
      }
      if slot != 0 {
        if k + 1 < |u| {
          assert u[k + 1] == 0;
          assert FirstZero(r) == Some(k + 1) by {
            FirstZeroAt(r, k + 1);
          }
        } else {
          assert FirstZero(r).None? by {
            FirstZeroAt(r, |r|);
          }
        }
        UsedPrefixIsPrefix(r);
        assert r[..k + 1] == u[..k] + [slot];
      } else {
        assert r == u;
      }
  }

  /** If no cell before `k` is zero and cell `k` is (or `k` is the end), the
      first zero cell is at `k`. */
  lemma {:induction false} FirstZeroAt(u: seq<byte>, k: nat)
    requires k <= |u|
    requires forall i :: 0 <= i < k ==> u[i] != 0
    requires k < |u| ==> u[k] == 0
    ensures k < |u| ==> FirstZero(u) == Some(k)
    ensures k == |u| ==> FirstZero(u).None?
  {
    if u != [] && k > 0 {
      FirstZeroAt(u[1..], k - 1);
    }
  }

  /** A draw below `nr - 1` (wrapped to a byte), plus one, is a slot of a
      round of `nr` slots. */
  lemma SlotInRound(nr: byte, v: byte)
    requires v as int <= (nr as int + 255) % 256
    ensures nr >= 1 ==> (1 + v as int) % 256 <= nr as int
  {
    if nr >= 1 {
      assert (nr as int + 255) % 256 == nr as int - 1;
    }
  }

  /** The slot `srch_select_next_slot` makes of a drawn value `v`:
      `1 + v`, stored in a `uint8_t`. */
  function SlotOf(v: byte): byte
  {
    (1 + v as int) % 256
  }

  /** The bound `srch_select_next_slot` passes to `rnd_integer`:
      `srch_nr_slots - 1` as a `uint8_t`. */
  function DrawBound(nr: byte): byte
  {
    (nr as int + 255) % 256
  }

  /** `srch_select_next_slot` on a pool that has been fed `fed`, with `tries`
      draws left: the announced slot and the stream the pool holds
      afterwards. A draw whose slot is not in `recorded` ends the search;
      when the draws run out (or the pool's draw budget does) the slot is 0. */
  function Select(hash: seq<byte> -> Random.Digest, budget: nat, fed: seq<byte>, nr: byte,
                  recorded: seq<byte>, tries: nat): (byte, seq<byte>)
    decreases tries
  {
    if tries == 0 then (0, fed)
    else
      var d := Random.IntegerDraw(hash, fed, DrawBound(nr), budget);
      if d.0.None? then (0, d.1)
      else if SlotOf(d.0.value) !in recorded then (SlotOf(d.0.value), d.1)
      else Select(hash, budget, d.1, nr, recorded, tries - 1)
  }

  /** One draw of `Select`: nothing drawn ends it with slot 0, a slot that is
      not recorded ends it with that slot, and a recorded slot leaves the
      rest of the draws to decide. */
  lemma SelectStep(hash: seq<byte> -> Random.Digest, budget: nat, fed: seq<byte>, nr: byte,
                   recorded: seq<byte>, tries: nat, r: Option<byte>, fed': seq<byte>)
    requires tries > 0 && (r, fed') == Random.IntegerDraw(hash, fed, DrawBound(nr), budget)
    ensures r.None? ==> Select(hash, budget, fed, nr, recorded, tries) == (0, fed')
    ensures r.Some? && SlotOf(r.value) !in recorded ==>
      Select(hash, budget, fed, nr, recorded, tries) == (SlotOf(r.value), fed')
    ensures r.Some? && SlotOf(r.value) in recorded ==>
      Select(hash, budget, fed, nr, recorded, tries) == Select(hash, budget, fed', nr, recorded, tries - 1)
  {
  }

  /** The values of up to `n` successive `rnd_integer(max)` calls on a pool
      that has been fed `fed`, stopping after a call that gave nothing. */
  function Draws(hash: seq<byte> -> Random.Digest, budget: nat, fed: seq<byte>, max: byte, n: nat)
    : (ds: seq<Option<byte>>)
    ensures |ds| <= n
    ensures |ds| < n ==> |ds| > 0 && ds[|ds| - 1].None?
    ensures forall k :: 0 <= k < |ds| - 1 ==> ds[k].Some?
    decreases n
  {
    if n == 0 then []
    else
      var d := Random.IntegerDraw(hash, fed, max, budget);
      if d.0.None? then [None] else [d.0] + Draws(hash, budget, d.1, max, n - 1)
  }

  /** A slot `Select` announces is a slot of the round that is not recorded,
      and the pool's stream is only extended. */
  lemma {:induction false} SelectSound(hash: seq<byte> -> Random.Digest, budget: nat, fed: seq<byte>, nr: byte,
                                       recorded: seq<byte>, tries: nat)
    ensures var (slot, fed') := Select(hash, budget, fed, nr, recorded, tries);
      && (slot != 0 ==> slot !in recorded)
      && (nr >= 1 ==> slot <= nr)
      && |fed| <= |fed'| && fed'[..|fed|] == fed
    decreases tries
  {
    if tries > 0 {
      var d := Random.IntegerDraw(hash, fed, DrawBound(nr), budget);
      if d.0.Some? {
        SlotInRound(nr, d.0.value);
        if SlotOf(d.0.value) in recorded {
          SelectSound(hash, budget, d.1, nr, recorded, tries - 1);
          PrefixTrans(fed, d.1, Select(hash, budget, d.1, nr, recorded, tries - 1).1);
        }
      }
    }
  }

  /** Every value in `ds` was drawn and its slot is recorded. */
  ghost predicate AllRecorded(ds: seq<Option<byte>>, recorded: seq<byte>)
  {
    forall j :: 0 <= j < |ds| ==> ds[j].Some? && SlotOf(ds[j].value) in recorded
  }

  /** Every draw in `ds` gave nothing or landed on a recorded slot. */
  ghost predicate NoneFree(ds: seq<Option<byte>>, recorded: seq<byte>)
  {
    forall k :: 0 <= k < |ds| ==> ds[k].None? || SlotOf(ds[k].value) in recorded
  }

  /** `slot` is the slot of a draw in `ds` whose predecessors all landed on
      recorded slots. */
  ghost predicate FirstFree(ds: seq<Option<byte>>, recorded: seq<byte>, slot: byte)
  {
    exists k :: 0 <= k < |ds| && ds[k].Some? && SlotOf(ds[k].value) == slot && AllRecorded(ds[..k], recorded)
  }

  /** A nonzero slot `Select` announces is the slot of the first draw, in the
      order the pool gives them, whose slot is not recorded. */
  lemma {:induction false} SelectFirstFree(hash: seq<byte> -> Random.Digest, budget: nat, fed: seq<byte>, nr: byte,
                                           recorded: seq<byte>, tries: nat)
    ensures Select(hash, budget, fed, nr, recorded, tries).0 != 0 ==>
      FirstFree(Draws(hash, budget, fed, DrawBound(nr), tries), recorded, Select(hash, budget, fed, nr, recorded, tries).0)
    decreases tries
  {
    if tries > 0 {
      var d := Random.IntegerDraw(hash, fed, DrawBound(nr), budget);
      var slot := Select(hash, budget, fed, nr, recorded, tries).0;
      var ds := Draws(hash, budget, fed, DrawBound(nr), tries);
      if d.0.Some? {
        var rest := Draws(hash, budget, d.1, DrawBound(nr), tries - 1);
        assert ds == [d.0] + rest;
        if SlotOf(d.0.value) !in recorded {
          assert slot == SlotOf(d.0.value);
          assert ds[0].Some? && SlotOf(ds[0].value) == slot && AllRecorded(ds[..0], recorded);
        } else if slot != 0 {
          SelectFirstFree(hash, budget, d.1, nr, recorded, tries - 1);
          assert slot == Select(hash, budget, d.1, nr, recorded, tries - 1).0;
          var k :| 0 <= k < |rest| && rest[k].Some? && SlotOf(rest[k].value) == slot && AllRecorded(rest[..k], recorded);
          assert ds[k + 1] == rest[k];
          assert ds[..k + 1] == [d.0] + rest[..k];
        }
      }
    }
  }

  /** In a round of at least one slot, `Select` falls back to slot 0 only
      when every draw it made (up to `tries` of them) landed on a recorded
      slot, or the pool gave nothing. */
  lemma {:induction false} SelectGivesUp(hash: seq<byte> -> Random.Digest, budget: nat, fed: seq<byte>, nr: byte,
                                         recorded: seq<byte>, tries: nat)
    requires nr >= 1
    ensures Select(hash, budget, fed, nr, recorded, tries).0 == 0 ==>
      NoneFree(Draws(hash, budget, fed, DrawBound(nr), tries), recorded)
    decreases tries
  {
    if tries > 0 {
      var d := Random.IntegerDraw(hash, fed, DrawBound(nr), budget);
      SelectStep(hash, budget, fed, nr, recorded, tries, d.0, d.1);
      if d.0.Some? {
        var ds, rest := Draws(hash, budget, fed, DrawBound(nr), tries), Draws(hash, budget, d.1, DrawBound(nr), tries - 1);
        assert ds == [d.0] + rest;
        SlotInRound(nr, d.0.value);
        if SlotOf(d.0.value) in recorded && Select(hash, budget, fed, nr, recorded, tries).0 == 0 {
          SelectGivesUp(hash, budget, d.1, nr, recorded, tries - 1);
          forall k | 0 <= k < |ds|
            ensures ds[k].None? || SlotOf(ds[k].value) in recorded
          {
            if k > 0 {
              assert ds[k] == rest[k - 1];
            }
          }
        }
      }
    }
  }

  /** A prefix of a prefix is a prefix. */
  lemma PrefixTrans(a: seq<byte>, b: seq<byte>, c: seq<byte>)
    requires |a| <= |b| && b[..|a|] == a
    requires |b| <= |c| && c[..|b|] == b
    ensures |a| <= |c| && c[..|a|] == a
  {
    assert c[..|a|] == c[..|b|][..|a|];
  }

  class SlotTable {
    /** `srch_used_slots`: slots other units announced for the next round. */
    var used: array<byte>
    /** `srch_selected_slot`: the slot this unit answers in this round. */
    var selected: byte
    /** `srch_next_slot`: the slot announced for the next round. */
    var next: byte
    /** `srch_nr_slots`: number of slots in the current round. */
    var nrSlots: byte

    /** The table has its fixed capacity and packed layout; while the round has
        at least one slot, `selected` and `next` are 0 or a slot of the round. */
    ghost predicate Valid()
      reads this, used
    {
      && TableOk()
      && (nrSlots >= 1 ==> selected <= nrSlots && next <= nrSlots)
    }

    /** The table has its fixed capacity and packed layout. */
    ghost predicate TableOk()
      reads this`used, used
    {
      used.Length == MaxSlots && Packed(used[..])
    }

    /** The slots recorded in the table. */
    ghost function Recorded(): seq<byte>
      reads this`used, used
    {
      UsedPrefix(used[..])
    }

    /** The zero-initialised globals at power-on. */
    constructor ()
      ensures Valid() && fresh(used)
      ensures used[..] == seq(MaxSlots, _ => 0) && Recorded() == []
      ensures selected == 0 && next == 0 && nrSlots == 0
    {
      used := new byte[MaxSlots](_ => 0);
      selected, next, nrSlots := 0, 0, 0;
    }

    /** `srch_taken`: whether the slot is among the recorded ones. */
    method Taken(slot: byte) returns (r: bool)
      requires TableOk()
      ensures r <==> slot in Recorded()
    {
      var i := 0;
      while i < MaxSlots && used[i] != 0
        invariant 0 <= i <= MaxSlots
        invariant UsedPrefix(used[..]) == used[..i] + UsedPrefix(used[i..])
        invariant slot !in used[..i]
      {
        if used[i] == slot {
          assert used[i..][0] == slot;
          return true;
        }
        assert used[i..][1..] == used[i + 1..];
        assert used[..i + 1] == used[..i] + [used[i]];
        i := i + 1;
      }
      assert slot !in UsedPrefix(used[i..]) by {
        if i < MaxSlots {
          assert used[i..][0] == 0;
        }
      }
      return false;
    }

    /** `srch_select_next_slot`: draws `1 + rnd_integer(nrSlots - 1)` (in 8-bit
        arithmetic) until the slot is not recorded, at most 64 times, and
        falls back to slot 0. The pool is only fed; the table, the round
        size and `selected` are untouched. */
    method SelectNextSlot(pool: Random.Pool)
      requires TableOk()
      modifies this`next, pool
      ensures TableOk() && used == old(used) && unchanged(used)
      ensures selected == old(selected) && nrSlots == old(nrSlots)
      ensures (next, pool.fed) == Select(pool.hash, pool.budget, old(pool.fed), nrSlots, Recorded(), MaxDraws)
    {
      ghost var recorded, nr := Recorded(), nrSlots;
      ghost var outcome := Select(pool.hash, pool.budget, pool.fed, nr, recorded, MaxDraws);
      for tries := 0 to MaxDraws
        invariant TableOk() && Recorded() == recorded
        invariant selected == old(selected) && nrSlots == nr
        invariant outcome == Select(pool.hash, pool.budget, pool.fed, nr, recorded, MaxDraws - tries)
      {
        var done := DrawOnce(pool, MaxDraws - tries);
        if done {
          return;
        }
        assert MaxDraws - tries - 1 == MaxDraws - (tries + 1);
      }
      assert outcome == (0, pool.fed);
      next := 0;
    }

    /** One pass of the loop in `srch_select_next_slot`: `next` becomes
        `1 + rnd_integer(nrSlots - 1)` in 8-bit arithmetic, and the search is
        done when that slot is not recorded or the pool gave nothing (then
        `next` is 0). Otherwise the remaining `tries - 1` draws decide. */
    method DrawOnce(pool: Random.Pool, ghost tries: nat) returns (done: bool)
      requires TableOk() && tries > 0
      modifies this`next, pool
      ensures TableOk() && Recorded() == old(Recorded())
      ensures done ==> (next, pool.fed) == Select(pool.hash, pool.budget, old(pool.fed), nrSlots, Recorded(), tries)
      ensures !done ==> Select(pool.hash, pool.budget, old(pool.fed), nrSlots, Recorded(), tries)
                        == Select(pool.hash, pool.budget, pool.fed, nrSlots, Recorded(), tries - 1)
    {
      // `srch_nr_slots - 1` is passed as `uint8_t`, and the sum is stored
      // back into the `uint8_t` slot: both wrap.
      var r := pool.Integer(DrawBound(nrSlots));
      SelectStep(pool.hash, pool.budget, old(pool.fed), nrSlots, Recorded(), tries, r, pool.fed);
      if r.None? {
        next := 0;
        return true;
      }
      next := SlotOf(r.value);
      var taken := Taken(next);
      done := !taken;
    }

    /** `search_start`: a new round of `nr` slots. The table is cleared, the
        announced slot is kept when it is a slot of the new round and drawn
        afresh otherwise, and it becomes the selected slot. */
    method Start(nr: byte, pool: Random.Pool)
      requires Valid()
      modifies this, used, pool
      ensures Valid() && used == old(used)
      ensures used[..] == seq(MaxSlots, _ => 0) && Recorded() == []
      ensures nrSlots == nr && selected == next
      ensures 1 <= old(next) <= nr ==> next == old(next) && pool.fed == old(pool.fed)
      ensures !(1 <= old(next) <= nr) ==>
        (next, pool.fed) == Select(pool.hash, pool.budget, old(pool.fed), nr, [], MaxDraws)
      ensures nr >= 1 ==> next <= nr
      ensures |old(pool.fed)| <= |pool.fed| && pool.fed[..|old(pool.fed)|] == old(pool.fed)
    {
      nrSlots := nr;
      forall i | 0 <= i < used.Length {
        used[i] := 0;
      }
      assert used[..] == seq(MaxSlots, _ => 0);
      if next == 0 || next > nr {
        SelectNextSlot(pool);
        SelectSound(pool.hash, pool.budget, old(pool.fed), nr, [], MaxDraws);
      }
      selected := next;
    }

    /** `search_read_slot`: when the polled slot is ours, a new slot is drawn
        and announced (returned); otherwise nothing happens. The selected
        slot never changes here. */
    method ReadSlot(slot: byte, pool: Random.Pool) returns (r: Option<byte>)
      requires Valid()
      modifies this`next, pool
      ensures Valid() && used == old(used) && unchanged(used)
      ensures selected == old(selected) && nrSlots == old(nrSlots)
      ensures slot != selected ==> r == None && next == old(next) && pool.fed == old(pool.fed)
      ensures slot == selected ==> r == Some(next)
      ensures slot == selected ==>
        (next, pool.fed) == Select(pool.hash, pool.budget, old(pool.fed), nrSlots, Recorded(), MaxDraws)
      ensures slot == selected ==> (next != 0 ==> next !in Recorded()) && (nrSlots >= 1 ==> next <= nrSlots)
      ensures |old(pool.fed)| <= |pool.fed| && pool.fed[..|old(pool.fed)|] == old(pool.fed)
    {
      if slot == selected {
        SelectNextSlot(pool);
        SelectSound(pool.hash, pool.budget, old(pool.fed), nrSlots, Recorded(), MaxDraws);
        return Some(next);
      }
      return None;
    }

    /** `search_is_us`: compares with the announced slot, not the selected one. */
    method IsUs(slot: byte) returns (r: bool)
      ensures r <==> slot == next
    {
      r := slot == next;
    }

    /** `search_add_used`: the slot goes into the first zero cell; a full
        table drops it. */
    method AddUsed(slot: byte)
      requires Valid()
      modifies used
      ensures Valid()
      ensures used[..] == AddSlot(old(used[..]), slot)
      ensures Recorded() ==
        if slot != 0 && FirstZero(old(used[..])).Some? then old(Recorded()) + [slot] else old(Recorded())
    {
      AddSlotRecords(used[..], slot);
      var i := 0;
      while i < MaxSlots
        invariant 0 <= i <= MaxSlots
        invariant forall k :: 0 <= k < i ==> used[k] != 0
        invariant unchanged(used)
      {
        if used[i] == 0 {
          FirstZeroAt(used[..], i);
          used[i] := slot;
          return;
        }
        i := i + 1;
      }
      FirstZeroAt(used[..], MaxSlots);
    }
  }
}
