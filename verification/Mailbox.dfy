/** The shared-memory mailbox: variable-length messages in a fixed zero-filled region, found again by scanning. */
module Mailbox {
  import opened Common

  const SHM_SIZE := 4096
  const COUNT_SIZE := 4
  const METADATA_SIZE := 8

  /** One message; its text is a C string, so it holds no NUL. */
  datatype Message = Message(source: int32, target: int32, text: seq<byte>)

  // ---------- words and messages as bytes ----------

  /** The little-endian bytes of a 32-bit word in two's complement. */
  function EncodeWord(x: int32): (b: seq<byte>)
    ensures |b| == 4
  {
    var u := x as int % 0x1_0000_0000;
    [u % 256, u / 256 % 256, u / 256 / 256 % 256, u / 256 / 256 / 256]
  }

  function Word(b: seq<byte>): int32
    requires |b| == 4
  {
    var u: int := b[0] as int + 256 * (b[1] as int + 256 * (b[2] as int + 256 * b[3] as int));
    if u < 0x8000_0000 then u else u - 0x1_0000_0000
  }

  lemma WordRoundTrip(x: int32)
    ensures Word(EncodeWord(x)) == x
    ensures EncodeWord(x)[0] == 0 <==> x % 256 == 0
    ensures var b := EncodeWord(x);
      b[0] as int + 256 * b[1] as int + 65536 * b[2] as int + 16777216 * b[3] as int ==
        if x >= 0 then x as int else x as int + 0x1_0000_0000
  {
    var u := x as int % 0x1_0000_0000;
    assert u == if x >= 0 then x as int else x as int + 0x1_0000_0000;
    Horner(u);
  }

  lemma Horner(u: nat)
    ensures u == u % 256 + 256 * (u / 256 % 256 + 256 * (u / 256 / 256 % 256 + 256 * (u / 256 / 256 / 256)))
  {
    assert u == u % 256 + 256 * (u / 256);
    assert u / 256 == u / 256 % 256 + 256 * (u / 256 / 256);
    assert u / 256 / 256 == u / 256 / 256 % 256 + 256 * (u / 256 / 256 / 256);
  }

  function Bytes(m: Message): (b: seq<byte>)
    ensures |b| == METADATA_SIZE + |m.text| + 1
  {
    EncodeWord(m.source) + EncodeWord(m.target) + m.text + [0]
  }

  function Layout(msgs: seq<Message>): seq<byte> {
    if msgs == [] then [] else Bytes(msgs[0]) + Layout(msgs[1..])
  }

  function Zeros(n: nat): (z: seq<byte>)
    ensures |z| == n && forall i :: 0 <= i < n ==> z[i] == 0
  {
    seq(n, _ => 0)
  }

  // ---------- the scans, over the bytes from the current position on ----------

  /** How far the next message lies, unless looking for it would leave the region. */
  function SkipLength(s: seq<byte>): (r: Option<nat>)
    ensures r.Some? ==> METADATA_SIZE < r.value <= |s|
  {
    if |s| > METADATA_SIZE && 0 in s[METADATA_SIZE..]
    then Some(METADATA_SIZE + |UntilNul(s[METADATA_SIZE..], 0)| + 1)
    else None
  }

  function Shifted(n: nat, k: Option<nat>): Option<nat> {
    match k
    case None => None
    case Some(v) => Some(n + v)
  }

  /** The first slot whose first byte is zero. */
  function FreeIn(s: seq<byte>): (r: Option<nat>)
    ensures r.Some? ==> r.value < |s|
    decreases |s|
  {
    if s == [] then None
    else if s[0] == 0 then Some(0)
    else
      match SkipLength(s)
      case None => None
      case Some(n) => Shifted(n, FreeIn(s[n..]))
  }

  lemma FreeStep(s: seq<byte>, n: nat, rest: seq<byte>)
    requires s != [] && SkipLength(s) == Some(n) && s[n..] == rest
    ensures FreeIn(s) == if s[0] == 0 then Some(0) else Shifted(n, FreeIn(rest))
  {
  }

  lemma ShiftTwice(m: nat, n: nat, total: nat, k: Option<nat>)
    requires total == m + n
    ensures Shifted(m, Shifted(n, k)) == Shifted(total, k)
  {
  }

  lemma TakenSlot(s: seq<byte>, p: nat, n: nat, total: nat)
    requires s != [] && s[0] != 0 && SkipLength(s) == Some(n) && total == p + n
    ensures Shifted(p, FreeIn(s)) == Shifted(total, FreeIn(s[n..]))
  {
    FreeStep(s, n, s[n..]);
    ShiftTwice(p, n, total, FreeIn(s[n..]));
  }

  /** One pass of `listen`: a message, the end of the region, or a read beyond it. */
  datatype Heard = Received(source: int32, text: seq<byte>) | WrapAround | PastEnd

  function ListenIn(s: seq<byte>, client: int32): Heard
    decreases |s|
  {
    if |s| < METADATA_SIZE then PastEnd
    else if Word(s[4..8]) == client then
      if 0 in s[METADATA_SIZE..] then Received(Word(s[..4]), UntilNul(s[METADATA_SIZE..], 0)) else PastEnd
    else
      match SkipLength(s)
      case None => PastEnd
      case Some(n) => if n == |s| then WrapAround else ListenIn(s[n..], client)
  }

  // ---------- the region ----------

  type Region = r: seq<byte> | |r| == SHM_SIZE witness Zeros(SHM_SIZE)

  /** The bytes with those from `p` on overwritten by `b`. */
  function Put(r: seq<byte>, p: nat, b: seq<byte>): (s: seq<byte>)
    requires p + |b| <= |r|
    ensures |s| == |r|
  {
    r[..p] + b + r[p + |b|..]
  }

  function Count(r: Region): int32 {
    Word(r[..COUNT_SIZE])
  }

  function FreeSlot(r: Region): (p: Option<nat>)
    ensures p.Some? ==> COUNT_SIZE <= p.value < SHM_SIZE
  {
    Shifted(COUNT_SIZE, FreeIn(r[COUNT_SIZE..]))
  }

  /** Room for the message behind the first free slot. */
  predicate Fits(r: Region, text: seq<byte>) {
    FreeSlot(r).Some? && FreeSlot(r).value + METADATA_SIZE + |text| + 1 <= SHM_SIZE
  }

  /** An `int` plus one, wrapping around. */
  function Successor(x: int32): int32 {
    if x == 0x7fff_ffff then -0x8000_0000 else x + 1
  }

  function AfterRegister(r: Region): Region {
    Put(r, 0, EncodeWord(Successor(Count(r))))
  }

  /** The bytes with those from `p` on overwritten by as much of `b` as lies inside. */
  function Overlay(r: seq<byte>, p: nat, b: seq<byte>): (s: seq<byte>)
    ensures |s| == |r|
  {
    seq(|r|, i requires 0 <= i < |r| => if p <= i < p + |b| then b[i - p] else r[i])
  }

  lemma OverlayInside(r: seq<byte>, p: nat, b: seq<byte>)
    requires p + |b| <= |r|
    ensures Overlay(r, p, b) == Put(r, p, b)
  {
  }

  /** What a send leaves in the region; the sender is recorded as the latest registered client. */
  function AfterSend(r: Region, target: int32, text: seq<byte>): Region {
    match FreeSlot(r)
    case None => r
    case Some(p) => Overlay(r, p, Bytes(Message(Count(r), target, text)))
  }

  lemma ThreeOverlays(r: seq<byte>, p: nat, a: seq<byte>, b: seq<byte>, c: seq<byte>)
    requires |a| == |b| == 4
    ensures Overlay(Overlay(Overlay(r, p, a), p + 4, b), p + 8, c) == Overlay(r, p, a + b + c)
  {
  }

  /** Storing the source, the target and the text one after the other stores the message. */
  lemma MessageInThree(r: seq<byte>, p: nat, m: Message)
    ensures var source, target := EncodeWord(m.source), EncodeWord(m.target);
      Overlay(Overlay(Overlay(r, p, source), p + 4, target), p + METADATA_SIZE, m.text + [0]) == Overlay(r, p, Bytes(m))
  {
    ThreeOverlays(r, p, EncodeWord(m.source), EncodeWord(m.target), m.text + [0]);
    assert EncodeWord(m.source) + EncodeWord(m.target) + (m.text + [0]) == Bytes(m);
  }

  class SharedMemory {
    var region: array<byte>

    ghost predicate Valid()
      reads this
    {
      region.Length == SHM_SIZE
    }

    constructor ()
      ensures Valid() && fresh(region) && region[..] == Zeros(SHM_SIZE)
    {
      region := new byte[SHM_SIZE](_ => 0);
      new;
      assert region[..] == Zeros(SHM_SIZE);
    }

    method StoreWord(p: nat, x: int32)
      requires Valid() && p + 4 <= SHM_SIZE
      modifies region
      ensures region[..] == Put(old(region[..]), p, EncodeWord(x))
    {
      var w := EncodeWord(x);
      region[p], region[p + 1], region[p + 2], region[p + 3] := w[0], w[1], w[2], w[3];
    }

    method Register() returns (id: int32)
      requires Valid()
      modifies region
      ensures region[..] == AfterRegister(old(region[..])) && id == Count(region[..])
      ensures old(Count(region[..])) < 0x7fff_ffff ==> id == old(Count(region[..])) + 1
    {
      var count := Word(region[..COUNT_SIZE]);
      assert region[..][..COUNT_SIZE] == region[..COUNT_SIZE];
      id := Successor(count);
      StoreWord(0, id);
      WordRoundTrip(id);
      assert region[..][..COUNT_SIZE] == EncodeWord(id);
    }

    /** The loop that looks for the next free slot; `None` when it leaves the mapping. */
    method FindFree() returns (slot: Option<nat>)
      requires Valid()
      ensures slot == FreeSlot(region[..])
    {
      var p: nat := COUNT_SIZE;
      assert region[p..] == region[..][COUNT_SIZE..];
      while p < SHM_SIZE && region[p] != 0
        invariant COUNT_SIZE <= p <= SHM_SIZE
        invariant Shifted(p, FreeIn(region[p..])) == FreeSlot(region[..])
        decreases SHM_SIZE - p
      {
        ghost var here := region[p..];
        if p + METADATA_SIZE >= SHM_SIZE || 0 !in region[p + METADATA_SIZE..] {
          assert |here| > METADATA_SIZE ==> here[METADATA_SIZE..] == region[p + METADATA_SIZE..];
          return None;
        }
        assert here[METADATA_SIZE..] == region[p + METADATA_SIZE..];
        var n := METADATA_SIZE + |UntilNul(region[p + METADATA_SIZE..], 0)| + 1;
        TakenSlot(here, p, n, p + n);
        assert here[n..] == region[p + n..];
        p := p + n;
      }
      slot := if p < SHM_SIZE then Some(p) else None;
    }

    /** Stores bytes one after the other; those behind the region are another mapping's, if anybody's. */
    method StoreBytes(p: nat, b: seq<byte>)
      requires Valid()
      modifies region
      ensures region[..] == Overlay(old(region[..]), p, b)
    {
      forall i | p <= i < p + |b| && i < SHM_SIZE {
        region[i] := b[i - p];
      }
    }

    /** False when the scan or the message leaves the mapping. */
    method Send(target: int32, text: seq<byte>) returns (inside: bool)
      requires Valid() && 0 !in text
      modifies region
      ensures inside == Fits(old(region[..]), text)
      ensures region[..] == AfterSend(old(region[..]), target, text)
    {
      var slot := FindFree();
      if slot.None? {
        return false;
      }
      var p := slot.value;
      ghost var r := region[..];
      var count := Word(region[..COUNT_SIZE]);
      assert r[..COUNT_SIZE] == region[..COUNT_SIZE];
      StoreBytes(p, EncodeWord(count));
      StoreBytes(p + 4, EncodeWord(target));
      StoreBytes(p + METADATA_SIZE, text + [0]);
      MessageInThree(r, p, Message(count, target, text));
      inside := p + METADATA_SIZE + |text| + 1 <= SHM_SIZE;
    }

    /** One pass over the region, up to the point where the source would wrap around or read past the mapping. */
    method Listen(client: int32) returns (heard: Heard)
      requires Valid()
      ensures heard == ListenIn(region[..][COUNT_SIZE..], client)
    {
      var p: nat := COUNT_SIZE;
      ghost var s := region[..][COUNT_SIZE..];
      assert region[p..] == s;
      while p + METADATA_SIZE <= SHM_SIZE
        invariant COUNT_SIZE <= p < SHM_SIZE
        invariant ListenIn(region[p..], client) == ListenIn(s, client)
        decreases SHM_SIZE - p
      {
        ghost var here := region[p..];
        var text := region[p + METADATA_SIZE..];
        assert here[METADATA_SIZE..] == text && here[4..8] == region[p + 4..p + 8] && here[..4] == region[p..p + 4];
        if Word(region[p + 4..p + 8]) == client {
          return if 0 in text then Received(Word(region[p..p + 4]), UntilNul(text, 0)) else PastEnd;
        }
        if 0 !in text {
          return PastEnd;
        }
        var n := METADATA_SIZE + |UntilNul(text, 0)| + 1;
        if p + n == SHM_SIZE {
          return WrapAround;
        }
        assert here[n..] == region[p + n..];
        p := p + n;
      }
      heard := PastEnd;
    }
  }
}
