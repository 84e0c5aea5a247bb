/** The host-side search driver and address allocation (searcher.py). A
    search round tells every unit how many slots there are, then polls the
    slots in turn with broadcast reads of the search parameter, keeping
    each unit whose reply names its address and the slot it picked next.
    The allocation then hands every unit whose address is already taken
    the smallest free address, by a write to its old address that also
    names its next slot, so that only that one unit takes it. */
module Searcher {
  import opened Bytes
  import opened Frame
  import HostBull

  /** Parameter of the slot search. */
  const SlotParam: byte := 0x08
  /** Parameter that holds a unit's address. */
  const AddressParam: byte := 0x01

  /** What a poll learns about a unit: its address and its next slot. */
  datatype Unit = Unit(address: byte, nextSlot: byte)

  /** The broadcast write that starts a round with `nrSlots` slots. */
  function StartFrame(nrSlots: byte): seq<byte>
  {
    Frame.Frame(Broadcast, CmdWrite, SlotParam, [nrSlots])
  }

  /** The broadcast read that polls one slot. */
  function PollFrame(slot: byte): seq<byte>
  {
    Frame.Frame(Broadcast, CmdRead, SlotParam, [slot])
  }

  /** The polls of slots 0 to `n - 1`. */
  function Polls(n: nat): seq<byte>
    requires n <= 256
  {
    if n == 0 then [] else Polls(n - 1) + PollFrame((n - 1) as byte)
  }

  /** The polls go out one six-byte frame per slot, in increasing slot
      order. */
  lemma {:induction false} PollsInOrder(n: nat)
    requires n <= 256
    ensures |Polls(n)| == 6 * n
    ensures forall k :: 0 <= k < n ==> Polls(n)[6 * k..6 * k + 6] == PollFrame(k as byte)
  {
    if n > 0 {
      PollsInOrder(n - 1);
      FrameWellFormed(Broadcast, CmdRead, SlotParam, [(n - 1) as byte]);
      var p := Polls(n - 1);
      assert Polls(n) == p + PollFrame((n - 1) as byte);
      forall k | 0 <= k < n
        ensures Polls(n)[6 * k..6 * k + 6] == PollFrame(k as byte)
      {
        if k < n - 1 {
          assert Polls(n)[6 * k..6 * k + 6] == p[6 * k..6 * k + 6];
        } else {
          assert Polls(n)[6 * k..6 * k + 6] == PollFrame(k as byte);
        }
      }
    }
  }

  /** `read_slot`'s classification of a reply read with `full_data`: a
      unit answered when the reply is accepted and its payload is the one
      byte of its next slot. */
  function Classify(response: HostBull.Response): (u: Option<Unit>)
  {
    match response
    case Full(reply) =>
      if reply.ok && |reply.data| == 1 then Some(Unit(reply.address, reply.data[0])) else None
    case _ => None
  }

  /** A unit's answer to a poll, arriving whole, is recognised as that unit
      and its next slot, whatever follows it. */
  lemma SlotReplyRecognised(address: byte, nextSlot: byte, rest: seq<byte>)
    ensures var f := Frame.Frame(address, CmdRead, SlotParam, [nextSlot]);
      && HostBull.Arrived(f + rest) == f
      && Classify(HostBull.Respond(HostBull.Arrived(f + rest), true)) == Some(Unit(address, nextSlot))
  {
    HostBull.ReplyRoundTrip(address, CmdRead, SlotParam, [nextSlot], rest);
  }

  /** Conversely, what is classified as a unit is a complete, uncorrupted,
      non-error frame from that address whose payload is its next slot; the
      command and the parameter of the reply are not looked at. */
  lemma ClassifiedIsFrame(raw: seq<byte>)
    requires Classify(HostBull.Respond(raw, true)).Some?
    ensures var u := Classify(HostBull.Respond(raw, true)).value;
      && |raw| == 6 && raw[1] != CmdError
      && raw == Frame.Frame(u.address, raw[1], raw[2], [u.nextSlot])
  {
    var reply := HostBull.Parse(raw);
    HostBull.OkReplyIsFrame(raw);
    assert reply.data == [reply.data[0]];
  }

  /** What is left of the incoming bytes once one reply has been read. */
  function Next(rx: seq<byte>): (r: seq<byte>)
    ensures rx == HostBull.Arrived(rx) + r
  {
    rx[|HostBull.Arrived(rx)|..]
  }

  /** What is left once `n` replies have been read. */
  function After(rx: seq<byte>, n: nat): seq<byte>
  {
    if n == 0 then rx else Next(After(rx, n - 1))
  }

  /** The reply read to the `k`-th request, when the incoming bytes are `rx`. */
  function ReplyTo(rx: seq<byte>, k: nat): seq<byte>
  {
    HostBull.Arrived(After(rx, k))
  }

  function Listed(u: Option<Unit>): seq<Unit>
  {
    if u.Some? then [u.value] else []
  }

  /** The units a round finds by polling `n` slots, when the replies come
      from `rx`. */
  function Found(rx: seq<byte>, n: nat): seq<Unit>
  {
    if n == 0 then [] else Found(rx, n - 1) + Listed(Classify(HostBull.Respond(ReplyTo(rx, n - 1), true)))
  }

  /** A round finds at most one unit per slot, and every unit it finds
      answered one of the polls. */
  lemma {:induction false} FoundFromReplies(rx: seq<byte>, n: nat)
    ensures |Found(rx, n)| <= n
    ensures forall u :: u in Found(rx, n) ==>
      exists k :: 0 <= k < n && Classify(HostBull.Respond(ReplyTo(rx, k), true)) == Some(u)
  {
    if n > 0 {
      FoundFromReplies(rx, n - 1);
      var last := Classify(HostBull.Respond(ReplyTo(rx, n - 1), true));
      assert Found(rx, n) == Found(rx, n - 1) + Listed(last);
      forall u | u in Found(rx, n)
        ensures exists k :: 0 <= k < n && Classify(HostBull.Respond(ReplyTo(rx, k), true)) == Some(u)
      {
        if u in Found(rx, n - 1) {
          var k :| 0 <= k < n - 1 && Classify(HostBull.Respond(ReplyTo(rx, k), true)) == Some(u);
          assert 0 <= k < n;
        } else {
          assert u in Listed(last);
          assert last == Some(u);
        }
      }
    }
  }

  /** `Searcher`: the bus connection and the number of slots of a round. */
  class Searcher {
    const bull: HostBull.Host
    const nrSlots: byte

    constructor (b: HostBull.Host, nrSlots: int)
      requires 4 < nrSlots <= 255
      ensures bull == b && this.nrSlots as int == nrSlots
    {
      bull := b;
      this.nrSlots := nrSlots as byte;
    }

    /** `start`: the broadcast write of the number of slots; its reply is
        read and dropped. */
    method Start()
      modifies bull
      ensures bull.sent == old(bull.sent) + StartFrame(nrSlots)
      ensures bull.rx == Next(old(bull.rx))
    {
      var _ := bull.Write(Broadcast as int, SlotParam as int, HostBull.Raw([nrSlots]), false);
    }

    /** `read_slot`: polls one slot and classifies the reply. */
    method ReadSlot(slot: byte) returns (unit: Option<Unit>)
      modifies bull
      ensures SlotRead(old(bull.sent), old(bull.rx), bull.sent, bull.rx, slot, unit)
    {
      var response := bull.Read(Broadcast as int, SlotParam as int, [slot], true);
      unit := None;
      match response.value
      case Full(reply) =>
        if reply.ok && |reply.data| == 1 {
          unit := Some(Unit(reply.address, reply.data[0]));
        }
      case _ =>
    }

    /** `search`: starts a round, then polls slots 0 to `nrSlots`
        inclusive and keeps the units that answered, in slot order. */
    method Search() returns (units: seq<Unit>)
      modifies bull
      ensures bull.sent == old(bull.sent) + StartFrame(nrSlots) + Polls(nrSlots as int + 1)
      ensures units == Found(Next(old(bull.rx)), nrSlots as int + 1)
      ensures bull.rx == After(Next(old(bull.rx)), nrSlots as int + 1)
    {
      Start();
      units := PollSlots();
    }

    /** The loop of `search` over the slots. */
    method PollSlots() returns (units: seq<Unit>)
      modifies bull
      ensures Polled(old(bull.sent), old(bull.rx), bull.sent, bull.rx, units, nrSlots as int + 1)
    {
      ghost var sent, rx := bull.sent, bull.rx;
      units := [];
      for slot := 0 to nrSlots as int + 1
        invariant Polled(sent, rx, bull.sent, bull.rx, units, slot)
      {
        ghost var sent1, rx1 := bull.sent, bull.rx;
        var unit := ReadSlot(slot as byte);
        PollStep(sent, rx, units, slot, unit, sent1, rx1, bull.sent, bull.rx);
        if unit.Some? {
          units := units + [unit.value];
        } else {
          assert units + Listed(unit) == units;
        }
      }
    }
  }

  /** What `read_slot` does to the bus: it sends the poll of `slot`, takes
      one reply from the incoming bytes and classifies it. */
  ghost predicate SlotRead(sent: seq<byte>, rx: seq<byte>, sent': seq<byte>, rx': seq<byte>, slot: byte, unit: Option<Unit>)
  {
    && sent' == sent + PollFrame(slot)
    && rx' == Next(rx)
    && unit == Classify(HostBull.Respond(HostBull.Arrived(rx), true))
  }

  /** The bus after polling slots 0 to `n - 1`, starting from `sent` and
      `rx`, with `units` found. */
  ghost predicate Polled(sent: seq<byte>, rx: seq<byte>, sent': seq<byte>, rx': seq<byte>, units: seq<Unit>, n: nat)
  {
    && n <= 256
    && sent' == sent + Polls(n)
    && rx' == After(rx, n)
    && units == Found(rx, n)
  }

  /** One more poll extends the round by one slot. */
  lemma PollStep(sent: seq<byte>, rx: seq<byte>, units: seq<Unit>, n: nat, unit: Option<Unit>,
                 sent1: seq<byte>, rx1: seq<byte>, sent2: seq<byte>, rx2: seq<byte>)
    requires n < 256 && Polled(sent, rx, sent1, rx1, units, n)
    requires SlotRead(sent1, rx1, sent2, rx2, n as byte, unit)
    ensures Polled(sent, rx, sent2, rx2, units + Listed(unit), n + 1)
  {
    PollsStep(sent, n);
    assert After(rx, n + 1) == Next(rx1);
    FoundStep(rx, n, rx1, unit);
  }

  lemma PollsStep(sent: seq<byte>, n: nat)
    requires n < 256
    ensures sent + Polls(n + 1) == (sent + Polls(n)) + PollFrame(n as byte)
  {
    assert Polls(n + 1) == Polls(n) + PollFrame(n as byte);
    Regroup(sent, Polls(n), PollFrame(n as byte));
  }

  lemma FoundStep(rx: seq<byte>, n: nat, rx1: seq<byte>, unit: Option<Unit>)
    requires rx1 == After(rx, n)
    requires unit == Classify(HostBull.Respond(HostBull.Arrived(rx1), true))
    ensures Found(rx, n + 1) == Found(rx, n) + Listed(unit)
  {
  }

  /** An entry of the allocation's `used` list: the addresses named on the
      command line stay the strings they were typed as, the others are
      integers. */
  datatype Entry = Text(s: string) | Number(n: int)

  /** The allocation's list comprehension: the smallest id below 255 that
      `used` does not hold, if there is one. */
  function FreeId(used: seq<Entry>): (r: Option<byte>)
    ensures r.Some? ==> r.value < 255 && Number(r.value as int) !in used
    ensures r.Some? ==> forall i :: 0 <= i < r.value as int ==> Number(i) in used
    ensures r.None? <==> forall i :: 0 <= i < 255 ==> Number(i) in used
  {
    FreeFrom(used, 0)
  }

  function FreeFrom(used: seq<Entry>, from: nat): (r: Option<byte>)
    requires from <= 255
    ensures r.Some? ==> from <= r.value as int < 255 && Number(r.value as int) !in used
    ensures r.Some? ==> forall i :: from <= i < r.value as int ==> Number(i) in used
    ensures r.None? <==> forall i :: from <= i < 255 ==> Number(i) in used
    decreases 255 - from
  {
    if from == 255 then None
    else if Number(from) in used then FreeFrom(used, from + 1)
    else Some(from as byte)
  }

  /** A write of a new address: to the unit's old address, with the new
      address and the unit's next slot as payload. */
  datatype Rename = Rename(address: byte, newAddress: byte, nextSlot: byte)

  /** The state of the allocation loop: the `used` list, the renames sent
      so far, and whether it ran out of addresses (the comprehension was
      empty and the script stopped). */
  datatype Allocation = Allocation(used: seq<Entry>, renames: seq<Rename>, exhausted: bool)

  /** The command-line addresses, then 0. */
  function Initial(ignored: seq<string>): (r: seq<Entry>)
    ensures |r| == |ignored| + 1 && r[|ignored|] == Number(0)
    ensures forall i :: 0 <= i < |ignored| ==> r[i] == Text(ignored[i])
  {
    if ignored == [] then [Number(0)] else [Text(ignored[0])] + Initial(ignored[1..])
  }

  /** One turn of the allocation loop. */
  function Assign(a: Allocation, unit: Unit): Allocation
  {
    if a.exhausted then a
    else if Number(unit.address as int) in a.used then
      match FreeId(a.used)
      case None => a.(exhausted := true)
      case Some(id) => Allocation(a.used + [Number(id as int)], a.renames + [Rename(unit.address, id, unit.nextSlot)], false)
    else a.(used := a.used + [Number(unit.address as int)])
  }

  /** The allocation over the units of the last round. */
  function Allocate(ignored: seq<string>, units: seq<Unit>): Allocation
  {
    if units == [] then Allocation(Initial(ignored), [], false)
    else Assign(Allocate(ignored, units[..|units| - 1]), units[|units| - 1])
  }

  /** The frame of one rename. */
  function RenameFrame(w: Rename): seq<byte>
  {
    Frame.Frame(w.address, CmdWrite, AddressParam, [w.newAddress, w.nextSlot])
  }

  /** The frames of the renames, in order. */
  function RenameFrames(renames: seq<Rename>): seq<byte>
  {
    if renames == [] then [] else RenameFrames(renames[..|renames| - 1]) + RenameFrame(renames[|renames| - 1])
  }

  /** The entries from `base` on are addresses, none is 0 or repeats an
      earlier entry. */
  ghost predicate FreshFrom(used: seq<Entry>, base: nat)
  {
    && base <= |used|
    && (forall k :: base <= k < |used| ==> used[k].Number? && 0 < used[k].n < 256)
    && (forall i, j :: 0 <= i < j < |used| && base <= j ==> used[i] != used[j])
  }

  /** The addresses the allocation settles on are distinct and never 0;
      each unit, until the addresses run out, gets one; a rename gives a
      unit an address below 255 that nothing before it holds. */
  lemma {:induction false} AllocationDistinct(ignored: seq<string>, units: seq<Unit>)
    ensures var a := Allocate(ignored, units);
      && FreshFrom(a.used, |ignored| + 1)
      && |a.used| <= |ignored| + 1 + |units|
      && (!a.exhausted ==> |a.used| == |ignored| + 1 + |units|)
      && (forall w :: w in a.renames ==> 0 < w.newAddress < 255)
    decreases |units|
  {
    if units != [] {
      var a := Allocate(ignored, units[..|units| - 1]);
      AllocationDistinct(ignored, units[..|units| - 1]);
      var unit := units[|units| - 1];
      if !a.exhausted {
        var base := |ignored| + 1;
        assert a.used[|ignored|] == Number(0) by {
          AllocatePrefix(ignored, units[..|units| - 1]);
        }
        if Number(unit.address as int) in a.used {
          var id := FreeId(a.used);
          if id.Some? {
            AppendFresh(a.used, base, Number(id.value as int));
          }
        } else {
          AppendFresh(a.used, base, Number(unit.address as int));
        }
      }
    }
  }

  /** The allocation only ever appends to `used`. */
  lemma {:induction false} AllocatePrefix(ignored: seq<string>, units: seq<Unit>)
    ensures Initial(ignored) <= Allocate(ignored, units).used
    decreases |units|
  {
    if units != [] {
      AllocatePrefix(ignored, units[..|units| - 1]);
    }
  }

  lemma AppendFresh(used: seq<Entry>, base: nat, e: Entry)
    requires FreshFrom(used, base) && e !in used && e.Number? && 0 < e.n < 256
    ensures FreshFrom(used + [e], base)
  {
    var u := used + [e];
    forall i, j | 0 <= i < j < |u| && base <= j
      ensures u[i] != u[j]
    {
      if j == |used| {
        assert u[i] == used[i];
      }
    }
  }

  /** `SmallestFree`: the comprehension, computed by a scan of the ids
      below 255. */
  method SmallestFree(used: seq<Entry>) returns (r: Option<byte>)
    ensures r == FreeId(used)
  {
    var i := 0;
    while i < 255
      invariant i <= 255
      invariant FreeFrom(used, i) == FreeId(used)
    {
      if Number(i) !in used {
        return Some(i as byte);
      }
      i := i + 1;
    }
    return None;
  }

  /** The `--autoset` loop of the script: every unit whose address is in
      `used` is renamed to the smallest free id by a write to its old
      address carrying the new address and its next slot; each unit's
      final address is then added to `used`. `ok` is false when the ids ran
      out. */
  method Autoset(b: HostBull.Host, ignored: seq<string>, units: seq<Unit>) returns (used: seq<Entry>, ok: bool)
    modifies b
    ensures var a := Allocate(ignored, units);
      && used == a.used && ok == !a.exhausted
      && b.sent == old(b.sent) + RenameFrames(a.renames)
      && b.rx == After(old(b.rx), |a.renames|)
  {
    used := Initial(ignored);
    ghost var renames: seq<Rename> := [];
    var i := 0;
    while i < |units|
      invariant i <= |units|
      invariant Allocate(ignored, units[..i]) == Allocation(used, renames, false)
      invariant b.sent == old(b.sent) + RenameFrames(renames)
      invariant b.rx == After(old(b.rx), |renames|)
    {
      assert units[..i + 1][..i] == units[..i];
      var unit := units[i].address;
      if Number(unit as int) in used {
        var newId := SmallestFree(used);
        if newId.None? {
          AllocateStops(ignored, units, i + 1);
          return used, false;
        }
        var w := Rename(unit, newId.value, units[i].nextSlot);
        var _ := b.Write(unit as int, AddressParam as int, HostBull.Raw([newId.value, units[i].nextSlot]), false);
        assert (renames + [w])[..|renames|] == renames;
        Regroup(old(b.sent), RenameFrames(renames), RenameFrame(w));
        renames := renames + [w];
        unit := newId.value;
      }
      used := used + [Number(unit as int)];
      i := i + 1;
    }
    assert units[..i] == units;
    return used, true;
  }

  /** Once the ids ran out, the rest of the units change nothing. */
  lemma {:induction false} AllocateStops(ignored: seq<string>, units: seq<Unit>, i: nat)
    requires i <= |units| && Allocate(ignored, units[..i]).exhausted
    ensures Allocate(ignored, units) == Allocate(ignored, units[..i])
    decreases |units| - i
  {
    if i < |units| {
      assert units[..i + 1][..i] == units[..i];
      AllocateStops(ignored, units, i + 1);
    } else {
      assert units[..i] == units;
    }
  }
}
