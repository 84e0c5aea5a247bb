/** The status LED's Morse sequencer (morse.c): a buffer of up to 256 LED
    states, most significant bit first within each of its 32 bytes, played
    back one state per tick, optionally in a loop. A dot is "on, off", a dash
    "on, on, on, off", a space "off, off"; each character is followed by a
    space. */
module Morse {
  import opened Bytes

  /** SEQUENCE_BUF */
  const BufBytes: nat := 32
  /** The number of LED states the buffer holds. */
  const Capacity: nat := 256

  /** The elements characters are spelled with. */
  datatype Mark = Short | Long | Gap

  /** The LED states `dot`, `dash` and `morse_space` append. */
  function Signal(m: Mark): (r: seq<bit>)
    ensures |r| >= 2
  {
    match m
    case Short => [1, 0]
    case Long => [1, 1, 1, 0]
    case Gap => [0, 0]
  }

  function Signals(ms: seq<Mark>): seq<bit>
  {
    if ms == [] then [] else Signal(ms[0]) + Signals(ms[1..])
  }

  /** Reads marks back from LED states; None when the states are not a
      sequence of mark signals. */
  function Decode(s: seq<bit>): Option<seq<Mark>>
    decreases |s|
  {
    if s == [] then Some([])
    else
      var m :=
        if |s| >= 2 && s[..2] == [1, 0] then Some(Short)
        else if |s| >= 4 && s[..4] == [1, 1, 1, 0] then Some(Long)
        else if |s| >= 2 && s[..2] == [0, 0] then Some(Gap)
        else None;
      match m
      case None => None
      case Some(mk) =>
        match Decode(s[|Signal(mk)|..])
        case None => None
        case Some(rest) => Some([mk] + rest)
  }

  /** The mark signals are a prefix code: the LED states of any sequence of
      marks read back as exactly that sequence. */
  lemma {:induction false} DecodeSignals(ms: seq<Mark>)
    ensures Decode(Signals(ms)) == Some(ms)
  {
    if ms != [] {
      var s := Signals(ms);
      var sig := Signal(ms[0]);
      assert s == sig + Signals(ms[1..]);
      assert s[..|sig|] == sig;
      assert s[|sig|..] == Signals(ms[1..]);
      match ms[0] {
        case Short =>
          assert s[..2] == [1, 0];
        case Long =>
          assert s[..2] == [1, 1];
          assert s[..4] == [1, 1, 1, 0];
        case Gap =>
          assert s[..2] == [0, 0];
          if |s| >= 4 {
            assert s[..4][0] == 0;
          }
      }
      DecodeSignals(ms[1..]);
      assert [ms[0]] + ms[1..] == ms;
    }
  }

  /** Lower-case ASCII letters are treated as their upper-case forms. */
  function Fold(c: char): char
  {
    if 'a' <= c <= 'z' then (c as int - 32) as char else c
  }

  /** The switch of `morse_character`: the marks spelling a character, or
      None for a character the table does not know. */
  function Pattern(c: char): Option<seq<Mark>>
  {
    match Fold(c)
    case ' ' => Some([Gap])
    case 'A' => Some([Short, Long])
    case 'B' => Some([Long, Short, Short, Short])
    case 'C' => Some([Long, Short, Long, Short])
    case 'D' => Some([Long, Short, Short])
    case 'E' => Some([Short])
    case 'F' => Some([Short, Short, Long, Short])
    case 'G' => Some([Long, Long, Short])
    case 'H' => Some([Short, Short, Short, Short])
    case 'I' => Some([Short, Short])
    case 'J' => Some([Short, Long, Long, Long])
    case 'K' => Some([Long, Short, Long])
    case 'L' => Some([Short, Long, Short, Short])
    case 'M' => Some([Long, Long])
    case 'N' => Some([Long, Short])
    case 'O' => Some([Long, Long, Long])
    case 'P' => Some([Short, Long, Long, Short])
    case 'Q' => Some([Long, Long, Short, Long])
    case 'R' => Some([Short, Long, Short])
    case 'S' => Some([Short, Short, Short])
    case 'T' => Some([Long])
    case 'U' => Some([Short, Short, Long])
    case 'V' => Some([Short, Short, Short, Long])
    case 'W' => Some([Short, Long, Long])
    case 'X' => Some([Long, Short, Short, Long])
    case 'Y' => Some([Long, Short, Long, Long])
    case 'Z' => Some([Long, Long, Short, Short])
    case '0' => Some([Long, Long, Long, Long, Long])
    case '1' => Some([Short, Long, Long, Long, Long])
    case '2' => Some([Short, Short, Long, Long, Long])
    case '3' => Some([Short, Short, Short, Long, Long])
    case '4' => Some([Short, Short, Short, Short, Long])
    case '5' => Some([Short, Short, Short, Short, Short])
    case '6' => Some([Long, Short, Short, Short, Short])
    case '7' => Some([Long, Long, Short, Short, Short])
    case '8' => Some([Long, Long, Long, Short, Short])
    case '9' => Some([Long, Long, Long, Long, Short])
    case '.' => Some([Short, Long, Short, Long, Short, Long])
    case ',' => Some([Long, Long, Short, Short, Long, Long])
    case ':' => Some([Long, Long, Long, Short, Short, Short])
    case '`' => Some([Short, Short, Long, Long, Short, Short])
    case '\'' => Some([Short, Long, Long, Long, Long, Short])
    case '-' => Some([Long, Short, Short, Short, Short, Long])
    case '/' => Some([Long, Short, Short, Long, Short])
    case '(' => Some([Long, Short, Long, Long, Short, Long])
    case '"' => Some([Short, Long, Short, Short, Long, Short])
    case '@' => Some([Short, Long, Long, Short, Long, Short])
    case '=' => Some([Long, Short, Short, Short, Long])
    case _ => None
  }

  /** LED states appended for a character: its marks, then a space. */
  function CharSignal(c: char): seq<bit>
  {
    match Pattern(c)
    case None => []
    case Some(ms) => Signals(ms + [Gap])
  }

  /** LED states `morse_say_P` asks for: every known character of the text,
      then two more spaces. Unknown characters add nothing. */
  function Message(text: string): seq<bit>
  {
    if text == [] then Signals([Gap, Gap])
    else CharSignal(text[0]) + Message(text[1..])
  }

  /** A buffer with room for `Capacity` states after one more is offered:
      appended if there is room, dropped otherwise. */
  function Push(b: seq<bit>, x: bit): seq<bit>
  {
    if |b| < Capacity then b + [x] else b
  }

  /** The buffer after offering every state of `s` in turn. */
  function Offer(b: seq<bit>, s: seq<bit>): seq<bit>
  {
    if s == [] then b else Push(Offer(b, s[..|s| - 1]), s[|s| - 1])
  }

  /** Offering states to a buffer appends as many of them as fit and drops
      the rest. */
  lemma {:induction false} OfferFills(b: seq<bit>, s: seq<bit>)
    requires |b| <= Capacity
    ensures Offer(b, s) == b + s[..Min(|s|, Capacity - |b|)]
  {
    if s != [] {
      OfferFills(b, s[..|s| - 1]);
      var k := Min(|s| - 1, Capacity - |b|);
      assert s[..|s| - 1][..k] == s[..k];
      if |s| <= Capacity - |b| {
        assert s[..k] + [s[|s| - 1]] == s[..|s|];
      }
    }
  }

  /** A dash offered state by state: four pushes, the last of which fits
      exactly when the whole signal does. */
  lemma OfferLong(s0: seq<bit>, s1: seq<bit>, s2: seq<bit>, s3: seq<bit>, s4: seq<bit>)
    requires |s0| <= Capacity
    requires s1 == Push(s0, 1) && s2 == Push(s1, 1) && s3 == Push(s2, 1) && s4 == Push(s3, 0)
    ensures s4 == Offer(s0, Signal(Long))
    ensures |s3| < Capacity <==> |s0| + |Signal(Long)| <= Capacity
  {
    var one: seq<bit> := [1];
    var two: seq<bit> := [1, 1];
    var three: seq<bit> := [1, 1, 1];
    OfferPush(s0, [], 1);
    assert [] + [1] == one;
    OfferPush(s0, one, 1);
    assert one + [1] == two;
    OfferPush(s0, two, 1);
    assert two + [1] == three;
    OfferPush(s0, three, 0);
    assert three + [0] == Signal(Long);
  }

  /** Offering one more state is pushing it. */
  lemma OfferPush(b: seq<bit>, s: seq<bit>, x: bit)
    ensures Offer(b, s + [x]) == Push(Offer(b, s), x)
  {
    assert (s + [x])[..|s|] == s;
  }

  /** Offering `s` and then `t` is offering `s + t`. */
  lemma {:induction false} OfferAppend(b: seq<bit>, s: seq<bit>, t: seq<bit>)
    ensures Offer(Offer(b, s), t) == Offer(b, s + t)
  {
    if t == [] {
      assert s + t == s;
    } else {
      OfferAppend(b, s, t[..|t| - 1]);
      assert (s + t)[..|s + t| - 1] == s + t[..|t| - 1];
    }
  }

  /** The last state offered was kept exactly when all of them fitted. */
  lemma OfferLastKept(b: seq<bit>, s: seq<bit>)
    requires |b| <= Capacity && s != []
    ensures |Offer(b, s[..|s| - 1])| < Capacity <==> |b| + |s| <= Capacity
  {
    OfferFills(b, s[..|s| - 1]);
  }

  lemma {:induction false} SignalsAppend(a: seq<Mark>, b: seq<Mark>)
    ensures Signals(a + b) == Signals(a) + Signals(b)
  {
    if a != [] {
      assert (a + b)[0] == a[0];
      assert (a + b)[1..] == a[1..] + b;
      SignalsAppend(a[1..], b);
      assert Signals(a + b) == Signal(a[0]) + Signals(a[1..] + b);
    } else {
      assert a + b == b;
    }
  }

  /** LED state `k` (0 = most significant bit) of a buffer byte. */
  function BitAt(b: bv8, k: nat): bit
    requires k < 8
  {
    if (b >> (7 - k)) & 1 == 1 then 1 else 0
  }

  /** Setting state `cb` of a byte whose state `cb` is off leaves the other
      states alone and gives state `cb` the new value. */
  lemma SetBit(b: bv8, cb: nat, v: bv8, k: nat)
    requires cb < 8 && k < 8 && v <= 1
    ensures k != cb ==> BitAt(b | (v << (7 - cb)), k) == BitAt(b, k)
    ensures k == cb && BitAt(b, cb) == 0 ==> BitAt(b | (v << (7 - cb)), k) == v as int
  {
  }

  /** The buffer bytes hold `states`, most significant bit first: state
      `8 * j + k` is bit `k` of byte `j`; and the states of the current
      byte not written yet are off. */
  ghost predicate Packs(bytes: seq<bv8>, states: seq<bit>)
  {
    && |bytes| == BufBytes && |states| <= Capacity
    && (forall j, k :: 0 <= j < |bytes| && 0 <= k < 8 && 8 * j + k < |states| ==>
          BitAt(bytes[j], k) == states[8 * j + k])
    && (|states| < Capacity && |states| % 8 != 0 ==>
          forall k :: |states| % 8 <= k < 8 ==> BitAt(bytes[|states| / 8], k) == 0)
  }

  /** `morse_add`'s writes, on the buffer's bytes, keep the packing: the
      byte `idx` of the new state, cleared first when the state starts it,
      gets the state's bit `cb`. */
  lemma PackAppend(bytes: seq<bv8>, states: seq<bit>, x: bit, cb: nat, idx: nat, base: bv8, v: bv8, after: seq<bv8>)
    requires Packs(bytes, states) && |states| < Capacity
    requires cb == |states| % 8 && idx == |states| / 8
    requires base == if cb == 0 then 0 else bytes[idx]
    requires v == if x == 1 then 1 else 0
    requires after == bytes[idx := base | (v << (7 - cb))]
    ensures Packs(after, states + [x])
  {
    var len := |states|;
    assert 8 * idx + cb == len;
    forall k | 0 <= k < 8
      ensures k != cb ==> BitAt(after[idx], k) == BitAt(base, k)
      ensures k == cb ==> BitAt(after[idx], k) == x
    {
      SetBit(base, cb, v, k);
    }
    forall j, k | 0 <= j < |after| && 0 <= k < 8 && 8 * j + k < len + 1
      ensures BitAt(after[j], k) == (states + [x])[8 * j + k]
    {
      if j != idx {
        assert 8 * j + k < len;
      } else if k < cb {
        assert BitAt(bytes[j], k) == states[8 * j + k];
      }
    }
    if len + 1 < Capacity && (len + 1) % 8 != 0 {
      assert (len + 1) / 8 == idx && (len + 1) % 8 == cb + 1;
    }
  }

  class Sequencer {
    /** `mSequence` */
    var buf: array<bv8>
    /** `mSequenceLen` */
    var len: nat
    /** `mSequencePos` */
    var pos: nat
    /** `mRepeat` */
    var repeat: byte
    /** The LED states in the buffer, in playing order. */
    ghost var states: seq<bit>

    /** The buffer holds `states`, most significant bit first, and the
        states of the current byte not written yet are off; the playing
        position is never past the end. */
    ghost predicate Valid()
      reads this, buf
    {
      && buf.Length == BufBytes
      && pos <= len && |states| == len
      && Packs(buf[..], states)
    }

    /** The zero-initialised globals at power-on. */
    constructor ()
      ensures Valid() && fresh(buf)
      ensures states == [] && pos == 0 && repeat == 0
    {
      buf := new bv8[BufBytes](_ => 0);
      len, pos, repeat := 0, 0, 0;
      states := [];
    }

    /** `morse_init`: an empty sequence played in a loop. */
    method Init()
      requires Valid()
      modifies this
      ensures Valid() && buf == old(buf)
      ensures states == [] && pos == 0 && repeat == 1
    {
      Clear();
      repeat := 1;
    }

    /** `morse_getled`: the state at the playing position, off past the end. */
    method GetLed() returns (led: bit)
      requires Valid()
      ensures led == if pos < |states| then states[pos] else 0
    {
      if pos >= len {
        return 0;
      }
      var b := buf[pos / 8];
      var bitNo := pos % 8;
      assert buf[..][pos / 8] == b && 8 * (pos / 8) + bitNo == pos;
      var mask: bv8 := 1 << (7 - bitNo);
      led := if b & mask != 0 then 1 else 0;
      assert led == BitAt(b, bitNo) by {
        assert (b >> (7 - bitNo)) & 1 == 1 <==> b & (1 << (7 - bitNo)) != 0 by {
          MaskTest(b, bitNo);
        }
      }
    }

    /** `morse_tick`: plays the state at the position and advances; at the
        end of the sequence it wraps to the start when repeating and stays
        past the end otherwise. */
    method Tick() returns (led: bit)
      requires Valid()
      modifies this`pos
      ensures Valid()
      ensures led == if old(pos) < |states| then states[old(pos)] else 0
      ensures old(pos) >= |states| ==> pos == old(pos)
      ensures old(pos) < |states| ==>
        pos == if old(pos) + 1 >= |states| && repeat != 0 then 0 else old(pos) + 1
    {
      if pos >= len {
        return 0;
      }
      led := GetLed();
      pos := pos + 1;
      if pos >= len {
        if repeat != 0 {
          pos := 0;
        }
      }
    }

    /** `morse_repeat`: turning repeating on rewinds a finished sequence. */
    method Repeat(active: byte)
      requires Valid()
      modifies this`pos, this`repeat
      ensures Valid() && repeat == active
      ensures pos == if active != 0 && old(pos) >= |states| then 0 else old(pos)
    {
      repeat := active;
      if repeat != 0 {
        if pos >= len {
          pos := 0;
        }
      }
    }

    /** `morse_restart` */
    method Restart()
      requires Valid()
      modifies this`pos
      ensures Valid() && pos == 0
    {
      pos := 0;
    }

    /** `morse_clear`: an empty sequence. The buffer bytes are left as they
        are; `morse_add` clears each byte when it starts writing into it. */
    method Clear()
      requires Valid()
      modifies this
      ensures Valid() && buf == old(buf) && unchanged(buf) && repeat == old(repeat)
      ensures states == [] && pos == 0
    {
      len, pos := 0, 0;
      states := [];
    }

    /** `morse_add`: appends one state (any nonzero argument is "on") when
        there is room, and reports whether it did. */
    method Add(b: byte) returns (ok: bool)
      requires Valid()
      modifies this, buf
      ensures Valid() && buf == old(buf) && pos == old(pos) && repeat == old(repeat)
      ensures ok <==> |old(states)| < Capacity
      ensures states == Push(old(states), if b != 0 then 1 else 0)
    {
      if len >= Capacity {
        return false;
      }
      ghost var bytes := buf[..];
      var cb := len % 8;
      var idx := len / 8;
      var v: bv8 := if b != 0 then 1 else 0;
      ghost var base: bv8 := if cb == 0 then 0 else bytes[idx];
      WriteState(idx, cb, v);
      ghost var x: bit := if b != 0 then 1 else 0;
      PackAppend(bytes, states, x, cb, idx, base, v, buf[..]);
      len := len + 1;
      states := states + [x];
      ok := true;
    }

    /** The writes of `morse_add`: the byte is cleared when the state starts
        it, then the state's bit is set. */
    method WriteState(idx: nat, cb: nat, v: bv8)
      requires idx < buf.Length && cb < 8
      modifies buf
      ensures buf[..] == old(buf[..])[idx := (if cb == 0 then 0 else old(buf[..])[idx]) | (v << (7 - cb))]
    {
      if cb == 0 {
        buf[idx] := 0;
      }
      var old_byte := buf[idx];
      buf[idx] := old_byte | (v << (7 - cb));
    }

    /** `dot`: reports whether its last state fitted. */
    method Dot() returns (ok: bool)
      requires Valid()
      modifies this, buf
      ensures Valid() && buf == old(buf) && pos == old(pos) && repeat == old(repeat)
      ensures states == Offer(old(states), Signal(Short))
      ensures ok <==> |old(states)| + |Signal(Short)| <= Capacity
    {
      var _ := Add(1);
      ok := Add(0);
      OfferFills(old(states), Signal(Short));
    }

    /** `dash`: reports whether its last state fitted. */
    method Dash() returns (ok: bool)
      requires Valid()
      modifies this, buf
      ensures Valid() && buf == old(buf) && pos == old(pos) && repeat == old(repeat)
      ensures states == Offer(old(states), Signal(Long))
      ensures ok <==> |old(states)| + |Signal(Long)| <= Capacity
    {
      ghost var s0 := states;
      var _ := Add(1);
      ghost var s1 := states;
      var _ := Add(1);
      ghost var s2 := states;
      var _ := Add(1);
      ghost var s3 := states;
      ok := Add(0);
      OfferLong(s0, s1, s2, s3, states);
    }

    /** `morse_space`: reports whether its last state fitted. */
    method Space() returns (ok: bool)
      requires Valid()
      modifies this, buf
      ensures Valid() && buf == old(buf) && pos == old(pos) && repeat == old(repeat)
      ensures states == Offer(old(states), Signal(Gap))
      ensures ok <==> |old(states)| + |Signal(Gap)| <= Capacity
    {
      var _ := Add(0);
      ok := Add(0);
      OfferFills(old(states), Signal(Gap));
    }

    /** Appends one mark with `dot`, `dash` or `morse_space`. */
    method Mark(m: Mark) returns (ok: bool)
      requires Valid()
      modifies this, buf
      ensures Valid() && buf == old(buf) && pos == old(pos) && repeat == old(repeat)
      ensures states == Offer(old(states), Signal(m))
      ensures ok <==> |old(states)| + |Signal(m)| <= Capacity
    {
      match m
      case Short => ok := Dot();
      case Long => ok := Dash();
      case Gap => ok := Space();
    }

    /** `morse_character`: the marks of a known character, then a space;
        reports whether the final space fitted. An unknown character adds
        nothing and reports failure. */
    method Character(c: char) returns (ok: bool)
      requires Valid()
      modifies this, buf
      ensures Valid() && buf == old(buf) && pos == old(pos) && repeat == old(repeat)
      ensures states == Offer(old(states), CharSignal(c))
      ensures ok <==> Pattern(c).Some? && |old(states)| + |CharSignal(c)| <= Capacity
    {
      var p := Pattern(c);
      if p.None? {
        return false;
      }
      var ms := p.value;
      Marks(ms);
      ok := Space();
      CharSignalOf(c, ms);
      OfferAppend(old(states), Signals(ms), Signal(Gap));
      OfferFills(old(states), Signals(ms));
      OfferFills(old(states), CharSignal(c));
    }

    /** The calls `morse_character` makes for the marks of one character. */
    method Marks(ms: seq<Mark>)
      requires Valid()
      modifies this, buf
      ensures Valid() && buf == old(buf) && pos == old(pos) && repeat == old(repeat)
      ensures states == Offer(old(states), Signals(ms))
    {
      var i := 0;
      while i < |ms|
        invariant 0 <= i <= |ms|
        invariant Valid() && buf == old(buf) && pos == old(pos) && repeat == old(repeat)
        invariant states == Offer(old(states), Signals(ms[..i]))
      {
        var _ := Mark(ms[i]);
        OfferAppend(old(states), Signals(ms[..i]), Signal(ms[i]));
        SignalsStep(ms, i);
        i := i + 1;
      }
      assert ms[..i] == ms;
    }

    /** `morse_say_P`: replaces the sequence with the text's characters and
        two extra spaces, and rewinds. The text is the firmware string up to
        its terminating zero byte; its index is an 8-bit counter. */
    method SayP(text: string)
      requires Valid()
      requires |text| < 256 && forall i :: 0 <= i < |text| ==> text[i] != '\0'
      modifies this, buf
      ensures Valid() && buf == old(buf) && repeat == old(repeat)
      ensures pos == 0
      ensures states == Offer([], Message(text))
      ensures |Message(text)| <= Capacity ==> states == Message(text)
    {
      Clear();
      var i := 0;
      while i < |text|
        invariant 0 <= i <= |text|
        invariant Valid() && buf == old(buf) && pos == 0 && repeat == old(repeat)
        invariant states == Offer([], Prefix(text[..i]))
      {
        var _ := Character(text[i]);
        OfferAppend([], Prefix(text[..i]), CharSignal(text[i]));
        PrefixStep(text, i);
        i := i + 1;
      }
      var _ := Space();
      var _ := Space();
      assert text[..i] == text;
      OfferAppend([], Prefix(text), Signal(Gap));
      OfferAppend([], Prefix(text) + Signal(Gap), Signal(Gap));
      MessageSplit(text);
      OfferFills([], Message(text));
    }
  }

  lemma SignalsStep(ms: seq<Mark>, i: nat)
    requires i < |ms|
    ensures Signals(ms[..i + 1]) == Signals(ms[..i]) + Signal(ms[i])
  {
    SignalsAppend(ms[..i], [ms[i]]);
    assert Signals([ms[i]]) == Signal(ms[i]) by {
      assert [ms[i]][1..] == [];
    }
    assert ms[..i + 1] == ms[..i] + [ms[i]];
  }

  lemma CharSignalOf(c: char, ms: seq<Mark>)
    requires Pattern(c) == Some(ms)
    ensures CharSignal(c) == Signals(ms) + Signal(Gap)
  {
    SignalsAppend(ms, [Gap]);
    assert Signals([Gap]) == Signal(Gap) by {
      assert [Gap][1..] == [];
    }
  }

  /** The LED states of the characters of `text`, without the closing spaces. */
  function Prefix(text: string): seq<bit>
  {
    if text == [] then [] else Prefix(text[..|text| - 1]) + CharSignal(text[|text| - 1])
  }

  lemma PrefixStep(text: string, i: nat)
    requires i < |text|
    ensures Prefix(text[..i + 1]) == Prefix(text[..i]) + CharSignal(text[i])
  {
    assert text[..i + 1][..i] == text[..i];
  }

  /** The message is the characters' states followed by two spaces. */
  lemma {:induction false} MessageSplit(text: string)
    ensures Message(text) == Prefix(text) + Signal(Gap) + Signal(Gap)
  {
    if text != [] {
      MessageSplit(text[1..]);
      PrefixFront(text);
    }
  }

  lemma {:induction false} PrefixFront(text: string)
    requires text != []
    ensures Prefix(text) == CharSignal(text[0]) + Prefix(text[1..])
  {
    if |text| > 1 {
      var init, rest, last := text[..|text| - 1], text[1..], text[|text| - 1];
      PrefixFront(init);
      assert init[1..] == rest[..|rest| - 1] && init[0] == text[0] && rest[|rest| - 1] == last;
      calc {
        Prefix(text);
        Prefix(init) + CharSignal(last);
        (CharSignal(text[0]) + Prefix(init[1..])) + CharSignal(last);
        { Regroup(CharSignal(text[0]), Prefix(init[1..]), CharSignal(last)); }
        CharSignal(text[0]) + (Prefix(rest[..|rest| - 1]) + CharSignal(rest[|rest| - 1]));
        CharSignal(text[0]) + Prefix(rest);
      }
    } else {
      assert text[1..] == [];
    }
  }

  /** Testing with `1 << (7 - k)` reads state `k`. */
  lemma MaskTest(b: bv8, k: nat)
    requires k < 8
    ensures (b >> (7 - k)) & 1 == 1 <==> b & (1 << (7 - k)) != 0
  {
  }
}
