/** The mailbox over whole runs: where messages lie, when a message is safe, and what `listen` hears. */
module MailboxLaws {
  import opened Common
  import opened Mailbox

  ghost predicate WellFormed(m: Message) {
    0 !in m.text && m.source % 256 != 0
  }

  ghost predicate AllMarked(msgs: seq<Message>)
    decreases |msgs|
  {
    msgs == [] || (WellFormed(msgs[0]) && AllMarked(msgs[1..]))
  }

  lemma {:induction false} MarkedAppend(msgs: seq<Message>, m: Message)
    requires AllMarked(msgs) && WellFormed(m)
    ensures AllMarked(msgs + [m])
    decreases |msgs|
  {
    if msgs == [] {
      assert msgs + [m] == [m];
    } else {
      MarkedAppend(msgs[1..], m);
      assert (msgs + [m])[1..] == msgs[1..] + [m];
    }
  }

  /** The bytes behind the messages. */
  function Unused(msgs: seq<Message>): nat
    requires |Layout(msgs)| <= SHM_SIZE - COUNT_SIZE
  {
    SHM_SIZE - COUNT_SIZE - |Layout(msgs)|
  }

  function Size(open: Option<Message>): nat {
    if open.Some? then |Bytes(open.value)| else 0
  }

  /** The `n` bytes behind the messages: a message whose slot still counts as free, if there is one, then zeros. */
  function Behind(open: Option<Message>, n: nat): (b: seq<byte>)
    requires Size(open) <= n
    ensures |b| == n
  {
    if open.Some? then Bytes(open.value) + Zeros(n - Size(open)) else Zeros(n)
  }

  /** A message that does not mark its slot as taken. */
  ghost predicate IsOpen(m: Message) {
    0 !in m.text && m.source % 256 == 0
  }

  /** The region holds the count, the messages back to back, possibly one more in the free slot, then zeros. */
  ghost predicate Holds(r: Region, count: int32, msgs: seq<Message>, open: Option<Message>) {
    && AllMarked(msgs) && (open.Some? ==> IsOpen(open.value))
    && |Layout(msgs)| + Size(open) <= SHM_SIZE - COUNT_SIZE
    && r == EncodeWord(count) + Layout(msgs) + Behind(open, Unused(msgs))
  }

  lemma CountAndRest(r: Region, count: int32, a: seq<byte>, b: seq<byte>)
    requires r == EncodeWord(count) + a + b
    ensures r[..COUNT_SIZE] == EncodeWord(count) && Count(r) == count
    ensures r[COUNT_SIZE..] == a + b
  {
    WordRoundTrip(count);
  }

  lemma HoldsParts(r: Region, count: int32, msgs: seq<Message>, open: Option<Message>)
    requires Holds(r, count, msgs, open)
    ensures r[..COUNT_SIZE] == EncodeWord(count) && Count(r) == count
    ensures r[COUNT_SIZE..] == Layout(msgs) + Behind(open, Unused(msgs))
  {
    CountAndRest(r, count, Layout(msgs), Behind(open, Unused(msgs)));
  }

  lemma LayoutAppend(a: seq<Message>, b: seq<Message>)
    ensures Layout(a + b) == Layout(a) + Layout(b)
  {
    if a == [] {
      assert a + b == b;
    } else {
      assert (a + b)[1..] == a[1..] + b;
      LayoutAppend(a[1..], b);
    }
  }

  // ---------- one message seen by the scans ----------

  lemma BytesParts(m: Message, rest: seq<byte>)
    ensures var s := Bytes(m) + rest;
      s[..4] == EncodeWord(m.source) && s[4..8] == EncodeWord(m.target) && s[METADATA_SIZE..] == m.text + [0] + rest
    ensures (Bytes(m) + rest)[|Bytes(m)|..] == rest
    ensures (Bytes(m) + rest)[0] == EncodeWord(m.source)[0]
  {
  }

  lemma TextParts(m: Message, rest: seq<byte>)
    requires 0 !in m.text
    ensures 0 in m.text + [0] + rest && UntilNul(m.text + [0] + rest, 0) == m.text
  {
    var t := m.text + [0] + rest;
    assert t[|m.text|] == 0 && t[..|m.text|] == m.text;
    UntilNulUnique(t, 0, |m.text|);
  }

  lemma SkipMessage(m: Message, rest: seq<byte>)
    requires 0 !in m.text
    ensures SkipLength(Bytes(m) + rest) == Some(|Bytes(m)|)
  {
    BytesParts(m, rest);
    TextParts(m, rest);
  }

  /** A slot is skipped exactly when the low byte of its source is not zero. */
  lemma FreeBehindMessage(m: Message, rest: seq<byte>)
    requires 0 !in m.text
    ensures FreeIn(Bytes(m) + rest) == if m.source % 256 == 0 then Some(0) else Shifted(|Bytes(m)|, FreeIn(rest))
  {
    BytesParts(m, rest);
    SkipMessage(m, rest);
    WordRoundTrip(m.source);
    FreeStep(Bytes(m) + rest, |Bytes(m)|, rest);
  }

  lemma LayoutHead(msgs: seq<Message>, rest: seq<byte>)
    requires msgs != []
    ensures Layout(msgs) + rest == Bytes(msgs[0]) + (Layout(msgs[1..]) + rest)
    ensures |Layout(msgs)| == |Bytes(msgs[0])| + |Layout(msgs[1..])|
  {
    ConcatAssociates(Bytes(msgs[0]), Layout(msgs[1..]), rest);
  }

  lemma FreeThroughMessage(s: seq<byte>, m: Message, behind: seq<byte>, n: nat, total: nat, k: Option<nat>)
    requires WellFormed(m) && s == Bytes(m) + behind && FreeIn(behind) == Shifted(n, k) && total == |Bytes(m)| + n
    ensures FreeIn(s) == Shifted(total, k)
  {
    FreeBehindMessage(m, behind);
    ShiftTwice(|Bytes(m)|, n, total, k);
  }

  lemma {:induction false} FreeThroughLayout(s: seq<byte>, msgs: seq<Message>, rest: seq<byte>, k: Option<nat>)
    requires AllMarked(msgs) && s == Layout(msgs) + rest && FreeIn(rest) == k
    ensures FreeIn(s) == Shifted(|Layout(msgs)|, k)
    decreases |msgs|
  {
    if msgs == [] {
      assert s == rest;
    } else {
      var behind := Layout(msgs[1..]) + rest;
      LayoutHead(msgs, rest);
      FreeThroughLayout(behind, msgs[1..], rest, k);
      FreeThroughMessage(s, msgs[0], behind, |Layout(msgs[1..])|, |Layout(msgs)|, k);
    }
  }

  lemma SlotFromOffset(r: Region, s: seq<byte>, n: nat, total: nat, k: Option<nat>)
    requires s == r[COUNT_SIZE..] && FreeIn(s) == Shifted(n, k) && total == COUNT_SIZE + n
    ensures FreeSlot(r) == Shifted(total, k)
  {
    ShiftTwice(COUNT_SIZE, n, total, k);
  }

  lemma SlotBehind(r: Region, s: seq<byte>, msgs: seq<Message>, behind: seq<byte>, total: nat, k: Option<nat>)
    requires AllMarked(msgs) && s == r[COUNT_SIZE..] && s == Layout(msgs) + behind && FreeIn(behind) == k
    requires total == COUNT_SIZE + |Layout(msgs)|
    ensures FreeSlot(r) == Shifted(total, k)
  {
    FreeThroughLayout(s, msgs, behind, k);
    SlotFromOffset(r, s, |Layout(msgs)|, total, k);
  }

  lemma FreeInZeros(n: nat)
    ensures FreeIn(Zeros(n)) == if n == 0 then None else Some(0)
  {
  }

  lemma FreeBehind(open: Option<Message>, n: nat)
    requires Size(open) <= n && (open.Some? ==> IsOpen(open.value))
    ensures FreeIn(Behind(open, n)) == if n == 0 then None else Some(0)
  {
    if open.Some? {
      FreeBehindMessage(open.value, Zeros(n - Size(open)));
    } else {
      FreeInZeros(n);
    }
  }

  lemma SlotAt(r: Region, s: seq<byte>, msgs: seq<Message>, open: Option<Message>, n: nat, total: nat)
    requires AllMarked(msgs) && Size(open) <= n && (open.Some? ==> IsOpen(open.value))
    requires s == r[COUNT_SIZE..] && s == Layout(msgs) + Behind(open, n) && total == COUNT_SIZE + |Layout(msgs)|
    ensures FreeSlot(r) == if n == 0 then None else Some(total)
  {
    var k := if n == 0 then None else Some(0);
    FreeBehind(open, n);
    SlotBehind(r, s, msgs, Behind(open, n), total, k);
  }

  lemma SlotBehindAll(r: Region, msgs: seq<Message>, open: Option<Message>, n: nat, total: nat)
    requires AllMarked(msgs) && Size(open) <= n && (open.Some? ==> IsOpen(open.value))
    requires r[COUNT_SIZE..] == Layout(msgs) + Behind(open, n) && total == COUNT_SIZE + |Layout(msgs)|
    ensures FreeSlot(r) == if n == 0 then None else Some(total)
  {
    SlotAt(r, r[COUNT_SIZE..], msgs, open, n, total);
  }

  /** The scan finds the first byte behind the messages that mark their slots. */
  lemma FindsFreeSlot(r: Region, count: int32, msgs: seq<Message>, open: Option<Message>)
    requires Holds(r, count, msgs, open)
    ensures FreeSlot(r) == if Unused(msgs) == 0 then None else Some(COUNT_SIZE + |Layout(msgs)|)
  {
    HoldsParts(r, count, msgs, open);
    SlotBehindAll(r, msgs, open, Unused(msgs), COUNT_SIZE + |Layout(msgs)|);
  }

  // ---------- sending and registering ----------

  lemma PutBehind(head: seq<byte>, used: seq<byte>, b: seq<byte>, rest: seq<byte>)
    requires |b| <= |rest|
    ensures Put(head + used + rest, |head| + |used|, b) == head + (used + b) + rest[|b|..]
  {
  }

  /** Where a message goes, whatever its source field. */
  lemma SendWrites(r: Region, count: int32, msgs: seq<Message>, open: Option<Message>, target: int32, text: seq<byte>)
    requires Holds(r, count, msgs, open) && Fits(r, text)
    ensures var m := Message(count, target, text);
      && |Bytes(m)| <= Unused(msgs)
      && AfterSend(r, target, text)
         == EncodeWord(count) + (Layout(msgs) + Bytes(m)) + Behind(open, Unused(msgs))[|Bytes(m)|..]
  {
    var m := Message(count, target, text);
    HoldsParts(r, count, msgs, open);
    FindsFreeSlot(r, count, msgs, open);
    OverlayInside(r, FreeSlot(r).value, Bytes(m));
    PutBehind(EncodeWord(count), Layout(msgs), Bytes(m), Behind(open, Unused(msgs)));
  }

  /** A text covers the message in the free slot if that is longer by no more than one character. */
  predicate Covers(text: seq<byte>, open: Option<Message>) {
    open.Some? ==> |open.value.text| <= |text| + 1
  }

  lemma OpenRest(u: Message, n: nat, k: nat)
    requires 0 !in u.text && METADATA_SIZE <= k <= n && |Bytes(u)| <= n
    ensures (Bytes(u) + Zeros(n - |Bytes(u)|))[k..] == Zeros(n - k) <==> METADATA_SIZE + |u.text| <= k
  {
    var b := Bytes(u) + Zeros(n - |Bytes(u)|);
    assert forall i :: 0 <= i < |u.text| ==> b[METADATA_SIZE + i] == u.text[i];
    if METADATA_SIZE + |u.text| <= k {
      assert forall i :: k <= i < n ==> b[i] == 0;
    } else {
      assert b[k..][0] == u.text[k - METADATA_SIZE] != 0;
    }
  }

  /** What is left of that message behind the new one is nothing but zeros exactly if the new text covers it. */
  lemma RestIsZero(open: Option<Message>, n: nat, text: seq<byte>, k: nat)
    requires Size(open) <= n && (open.Some? ==> IsOpen(open.value)) && k == METADATA_SIZE + |text| + 1 <= n
    ensures Behind(open, n)[k..] == Zeros(n - k) <==> Covers(text, open)
  {
    if open.Some? {
      OpenRest(open.value, n, k);
    } else {
      assert Zeros(n)[k..] == Zeros(n - k);
    }
  }

  lemma LayoutOneMore(msgs: seq<Message>, m: Message)
    ensures Layout(msgs + [m]) == Layout(msgs) + Bytes(m)
  {
    LayoutAppend(msgs, [m]);
    assert [m][1..] == [];
    assert Bytes(m) + [] == Bytes(m);
  }

  /** The messages whose slots are taken after `m` has been sent; it takes its own if its source marks it. */
  function NextMessages(msgs: seq<Message>, m: Message): seq<Message> {
    if m.source % 256 != 0 then msgs + [m] else msgs
  }

  function NextOpen(m: Message): Option<Message> {
    if m.source % 256 != 0 then None else Some(m)
  }

  lemma NextLayout(msgs: seq<Message>, m: Message, n: nat)
    requires |Layout(msgs)| + |Bytes(m)| + n == SHM_SIZE - COUNT_SIZE
    ensures var next := NextMessages(msgs, m);
      && |Layout(next)| + Size(NextOpen(m)) <= SHM_SIZE - COUNT_SIZE
      && Layout(next) + Behind(NextOpen(m), Unused(next)) == Layout(msgs) + Bytes(m) + Zeros(n)
  {
    if m.source % 256 != 0 {
      LayoutOneMore(msgs, m);
    } else {
      ConcatAssociates(Layout(msgs), Bytes(m), Zeros(n));
    }
  }

  /** A message goes behind all that mark their slots, over the one that does not, if it covers that. */
  lemma SendAppends(r: Region, count: int32, msgs: seq<Message>, open: Option<Message>, target: int32, text: seq<byte>)
    requires Holds(r, count, msgs, open) && 0 !in text && Covers(text, open)
    ensures var m := Message(count, target, text);
      Fits(r, text) ==> Holds(AfterSend(r, target, text), count, NextMessages(msgs, m), NextOpen(m))
  {
    if Fits(r, text) {
      SendAppendsFitting(r, count, msgs, open, target, text);
    }
  }

  lemma SendAppendsFitting(r: Region, count: int32, msgs: seq<Message>, open: Option<Message>,
                           target: int32, text: seq<byte>)
    requires Holds(r, count, msgs, open) && 0 !in text && Fits(r, text) && Covers(text, open)
    ensures var m := Message(count, target, text);
      Holds(AfterSend(r, target, text), count, NextMessages(msgs, m), NextOpen(m))
  {
    var m := Message(count, target, text);
    var n := Unused(msgs) - |Bytes(m)|;
    SendWrites(r, count, msgs, open, target, text);
    RestIsZero(open, Unused(msgs), text, |Bytes(m)|);
    NextLayout(msgs, m, n);
    ConcatAssociates(EncodeWord(count), Layout(msgs) + Bytes(m), Zeros(n));
    var next := NextMessages(msgs, m);
    ConcatAssociates(EncodeWord(count), Layout(next), Behind(NextOpen(m), Unused(next)));
    if m.source % 256 != 0 {
      MarkedAppend(msgs, m);
    }
  }

  lemma Rear(a: seq<byte>, b: seq<byte>, c: seq<byte>, end: nat)
    requires end == |a| + |b|
    ensures (a + b + c)[end..] == c
  {
  }

  /** If it does not, bytes of the old message are left behind it, where zeros were to be. */
  lemma RemainsAreLeft(r: Region, count: int32, msgs: seq<Message>, open: Option<Message>,
                       target: int32, text: seq<byte>, end: nat, left: nat)
    requires Holds(r, count, msgs, open) && end == COUNT_SIZE + |Layout(msgs)| + METADATA_SIZE + |text| + 1
    ensures Fits(r, text) ==> end <= SHM_SIZE
    ensures Fits(r, text) && end + left == SHM_SIZE ==>
      (AfterSend(r, target, text)[end..] == Zeros(left) <==> Covers(text, open))
  {
    var m, n := Message(count, target, text), Unused(msgs);
    if Fits(r, text) {
      SendWrites(r, count, msgs, open, target, text);
    }
    if Fits(r, text) && end + left == SHM_SIZE {
      assert left == n - |Bytes(m)|;
      RestIsZero(open, n, text, |Bytes(m)|);
      Rear(EncodeWord(count), Layout(msgs) + Bytes(m), Behind(open, n)[|Bytes(m)|..], end);
    }
  }

  lemma RegisterCounts(r: Region, count: int32, msgs: seq<Message>, open: Option<Message>)
    requires Holds(r, count, msgs, open)
    ensures Holds(AfterRegister(r), Successor(count), msgs, open)
  {
    HoldsParts(r, count, msgs, open);
    PutFirst(EncodeWord(count), EncodeWord(Successor(count)), Layout(msgs), Behind(open, Unused(msgs)));
  }

  lemma PutFirst(w: seq<byte>, v: seq<byte>, a: seq<byte>, b: seq<byte>)
    requires |w| == |v|
    ensures Put(w + a + b, 0, v) == v + a + b
  {
  }

  lemma FreeAtMessage(m: Message, rest: seq<byte>)
    requires 0 !in m.text
    ensures var k := FreeIn(Bytes(m) + rest);
      if m.source % 256 == 0 then k == Some(0) else k == None || k.value > 0
  {
    FreeBehindMessage(m, rest);
  }

  lemma WithoutFirst(w: seq<byte>, a: seq<byte>, b: seq<byte>, c: seq<byte>)
    requires |w| == COUNT_SIZE
    ensures (w + (a + b) + c)[COUNT_SIZE..] == a + (b + c)
  {
  }

  lemma BytesAfterSend(r: Region, count: int32, msgs: seq<Message>, open: Option<Message>,
                       target: int32, text: seq<byte>)
    returns (behind: seq<byte>, rest: seq<byte>)
    requires Holds(r, count, msgs, open) && Fits(r, text)
    ensures AfterSend(r, target, text)[COUNT_SIZE..] == Layout(msgs) + behind
    ensures behind == Bytes(Message(count, target, text)) + rest
  {
    var m := Message(count, target, text);
    SendWrites(r, count, msgs, open, target, text);
    rest := Behind(open, Unused(msgs))[|Bytes(m)|..];
    behind := Bytes(m) + rest;
    WithoutFirst(EncodeWord(count), Layout(msgs), Bytes(m), rest);
  }

  /** The next free slot after a send: the message's own, or one behind it. */
  lemma SlotAfterSend(r: Region, count: int32, msgs: seq<Message>, open: Option<Message>,
                      target: int32, text: seq<byte>, total: nat)
    returns (k: Option<nat>)
    requires Holds(r, count, msgs, open) && 0 !in text && Fits(r, text) && total == COUNT_SIZE + |Layout(msgs)|
    ensures FreeSlot(AfterSend(r, target, text)) == Shifted(total, k)
    ensures if count % 256 == 0 then k == Some(0) else k == None || k.value > 0
  {
    var after := AfterSend(r, target, text);
    var behind, rest := BytesAfterSend(r, count, msgs, open, target, text);
    k := FreeIn(behind);
    FreeAtMessage(Message(count, target, text), rest);
    SlotBehind(after, after[COUNT_SIZE..], msgs, behind, total, k);
  }

  /**
   * The source field marks a slot as taken, and only its low byte is looked at. So the next scan lands on
   * the message just sent, to overwrite it, exactly when the count is a multiple of 256: with no client
   * registered, or 256 of them.
   */
  lemma MessageIsSafe(r: Region, count: int32, msgs: seq<Message>, open: Option<Message>,
                      target: int32, text: seq<byte>)
    requires Holds(r, count, msgs, open) && 0 !in text
    ensures Fits(r, text) ==> (FreeSlot(AfterSend(r, target, text)) != FreeSlot(r) <==> count % 256 != 0)
  {
    if Fits(r, text) {
      var k := SlotAfterSend(r, count, msgs, open, target, text, COUNT_SIZE + |Layout(msgs)|);
      FindsFreeSlot(r, count, msgs, open);
    }
  }

  // ---------- listening ----------

  /** The oldest message for a client. */
  function FirstFor(msgs: seq<Message>, client: int32): Option<Message> {
    if msgs == [] then None
    else if msgs[0].target == client then Some(msgs[0])
    else FirstFor(msgs[1..], client)
  }

  lemma HearMessage(m: Message, rest: seq<byte>, client: int32)
    requires 0 !in m.text
    ensures m.target == client ==> ListenIn(Bytes(m) + rest, client) == Received(m.source, m.text)
    ensures m.target != client ==>
      ListenIn(Bytes(m) + rest, client) == if rest == [] then WrapAround else ListenIn(rest, client)
  {
    BytesParts(m, rest);
    TextParts(m, rest);
    SkipMessage(m, rest);
    WordRoundTrip(m.source);
    WordRoundTrip(m.target);
  }

  lemma {:induction false} HearLayout(msgs: seq<Message>, rest: seq<byte>, client: int32)
    requires AllMarked(msgs)
    requires Layout(msgs) + rest != []
    ensures ListenIn(Layout(msgs) + rest, client) ==
      match FirstFor(msgs, client)
      case Some(m) => Received(m.source, m.text)
      case None => if rest == [] then WrapAround else ListenIn(rest, client)
    decreases |msgs|
  {
    if msgs == [] {
      assert Layout(msgs) + rest == rest;
    } else {
      var more := Layout(msgs[1..]) + rest;
      LayoutHead(msgs, rest);
      HearMessage(msgs[0], more, client);
      if msgs[0].target != client {
        if more == [] {
          assert msgs[1..] == [];
        } else {
          HearLayout(msgs[1..], rest, client);
        }
      }
    }
  }

  lemma ZeroParts(n: nat)
    requires n > METADATA_SIZE
    ensures var z := Zeros(n);
      && Word(z[4..8]) == 0 && Word(z[..4]) == 0
      && 0 in z[METADATA_SIZE..] && UntilNul(z[METADATA_SIZE..], 0) == []
  {
    var z := Zeros(n);
    assert z[4..8] == EncodeWord(0) && z[..4] == EncodeWord(0);
    WordRoundTrip(0);
    assert z[METADATA_SIZE..][0] == 0;
    UntilNulUnique(z[METADATA_SIZE..], 0, 0);
  }

  /** In the zeros behind the messages a free slot reads as a message from 0 to 0. */
  lemma HearZeroSlot(n: nat, client: int32)
    requires n > METADATA_SIZE
    ensures client == 0 ==> ListenIn(Zeros(n), client) == Received(0, [])
    ensures client != 0 ==>
      ListenIn(Zeros(n), client) == if n == 9 then WrapAround else ListenIn(Zeros(n - 9), client)
  {
    ZeroParts(n);
    assert Zeros(n)[9..] == Zeros(n - 9);
  }

  lemma HearFewZeros(n: nat, client: int32)
    requires 0 < n <= METADATA_SIZE
    ensures ListenIn(Zeros(n), client) == PastEnd
  {
    if n == METADATA_SIZE {
      assert Zeros(n)[4..8] == EncodeWord(0);
      WordRoundTrip(0);
    }
  }

  /** What one pass over `unused` zeros gives. */
  function HeardInZeros(unused: nat, client: int32): Heard {
    if client == 0 && unused > METADATA_SIZE then Received(0, [])
    else if unused % 9 == 0 then WrapAround
    else PastEnd
  }

  lemma NineFewer(n: nat)
    requires n >= 9
    ensures (n - 9) % 9 == n % 9
  {
  }

  lemma {:induction false} HearZeros(n: nat, client: int32)
    requires n > 0
    ensures ListenIn(Zeros(n), client) == HeardInZeros(n, client)
    decreases n
  {
    if n <= METADATA_SIZE {
      HearFewZeros(n, client);
    } else {
      HearZeroSlot(n, client);
      if client != 0 && n > 9 {
        HearZeros(n - 9, client);
        NineFewer(n);
      }
    }
  }

  /** The oldest message for a client in the whole region. */
  function Oldest(msgs: seq<Message>, open: Option<Message>, client: int32): Option<Message> {
    if FirstFor(msgs, client).Some? then FirstFor(msgs, client)
    else if open.Some? && open.value.target == client then open
    else None
  }

  /** It comes first of all those addressed to the client, and there is none only if nobody has written to it. */
  lemma OldestIsFirst(msgs: seq<Message>, open: Option<Message>, client: int32, all: seq<Message>)
    requires all == msgs + (if open.Some? then [open.value] else [])
    ensures match Oldest(msgs, open, client)
      case Some(m) => exists i :: 0 <= i < |all| && all[i] == m && m.target == client
                                  && forall k :: 0 <= k < i ==> all[k].target != client
      case None => forall k :: 0 <= k < |all| ==> all[k].target != client
  {
    FirstForIsFirst(msgs, client);
    assert forall k :: 0 <= k < |msgs| ==> all[k] == msgs[k];
    if FirstFor(msgs, client).Some? {
      var m := FirstFor(msgs, client).value;
      var i :| 0 <= i < |msgs| && msgs[i] == m && forall k :: 0 <= k < i ==> msgs[k].target != client;
      assert all[i] == m;
    } else if open.Some? {
      assert all[|msgs|] == open.value;
    }
  }

  lemma {:induction false} FirstForIsFirst(msgs: seq<Message>, client: int32)
    ensures match FirstFor(msgs, client)
      case Some(m) => exists i :: 0 <= i < |msgs| && msgs[i] == m && m.target == client
                                  && forall k :: 0 <= k < i ==> msgs[k].target != client
      case None => forall k :: 0 <= k < |msgs| ==> msgs[k].target != client
    decreases |msgs|
  {
    if msgs != [] && msgs[0].target != client {
      FirstForIsFirst(msgs[1..], client);
      if FirstFor(msgs, client).Some? {
        var m := FirstFor(msgs, client).value;
        var i :| 0 <= i < |msgs[1..]| && msgs[1..][i] == m && forall k :: 0 <= k < i ==> msgs[1..][k].target != client;
        assert msgs[i + 1] == m;
        assert forall k :: 0 <= k < i + 1 ==> k == 0 || msgs[k] == msgs[1..][k - 1];
      } else {
        assert forall k :: 0 <= k < |msgs| ==> k == 0 || msgs[k] == msgs[1..][k - 1];
      }
    }
  }

  /** What one pass gives a client, `unused` bytes behind the messages being zero. */
  function HeardFrom(msgs: seq<Message>, open: Option<Message>, unused: nat, client: int32): Heard {
    match Oldest(msgs, open, client)
    case Some(m) => Received(m.source, m.text)
    case None => HeardInZeros(unused, client)
  }

  lemma HearBehind(open: Option<Message>, n: nat, client: int32)
    requires 0 < n && Size(open) <= n && (open.Some? ==> IsOpen(open.value))
    ensures ListenIn(Behind(open, n), client) ==
      if open.Some? && open.value.target == client then Received(open.value.source, open.value.text)
      else HeardInZeros(n - Size(open), client)
  {
    if open.Some? {
      HearMessage(open.value, Zeros(n - Size(open)), client);
      if n > Size(open) {
        HearZeros(n - Size(open), client);
      }
    } else {
      HearZeros(n, client);
    }
  }

  lemma HearAll(msgs: seq<Message>, open: Option<Message>, n: nat, unused: nat, client: int32)
    requires AllMarked(msgs) && (open.Some? ==> IsOpen(open.value))
    requires n == Size(open) + unused && |Layout(msgs)| + n > 0
    ensures ListenIn(Layout(msgs) + Behind(open, n), client) == HeardFrom(msgs, open, unused, client)
  {
    HearLayout(msgs, Behind(open, n), client);
    if n > 0 {
      HearBehind(open, n, client);
    }
  }

  /**
   * Every client hears the oldest message addressed to it. If there is none the scan steps through the unused
   * bytes nine at a time: it meets the end of the region only when they are a multiple of nine, and client 0
   * hears a message that nobody sent.
   */
  lemma ListenHearsOldest(r: Region, count: int32, msgs: seq<Message>, open: Option<Message>, client: int32)
    requires Holds(r, count, msgs, open)
    ensures ListenIn(r[COUNT_SIZE..], client) == HeardFrom(msgs, open, Unused(msgs) - Size(open), client)
  {
    HoldsParts(r, count, msgs, open);
    var n := Unused(msgs);
    var unused := n - Size(open);
    HearAll(msgs, open, n, unused, client);
  }

  /** Listening as client 0, to whom nobody has written, hears a message that was never sent, if there is room. */
  lemma ListenAsNobody(r: Region, count: int32, msgs: seq<Message>, open: Option<Message>)
    requires Holds(r, count, msgs, open) && Oldest(msgs, open, 0) == None
    ensures ListenIn(r[COUNT_SIZE..], 0) == Received(0, []) <==> Unused(msgs) - Size(open) > METADATA_SIZE
  {
    ListenHearsOldest(r, count, msgs, open, 0);
  }

  // ---------- runs ----------

  datatype Op = Register | Send(target: int32, text: seq<byte>)

  /** The region with the history of the run: the count, the messages in taken slots, and the one in the free slot. */
  datatype Box = Box(region: Region, count: int32, msgs: seq<Message>, open: Option<Message>)

  const EMPTY := Box(Zeros(SHM_SIZE), 0, [], None)

  /** `None` when the text is not a C string or the message does not fit. */
  function Step(b: Box, op: Op): Option<Box> {
    match op
    case Register => Some(Box(AfterRegister(b.region), Successor(b.count), b.msgs, b.open))
    case Send(target, text) =>
      var m := Message(b.count, target, text);
      if 0 !in text && Fits(b.region, text)
      then Some(Box(AfterSend(b.region, target, text), b.count, NextMessages(b.msgs, m), NextOpen(m))) else None
  }

  function Run(b: Box, ops: seq<Op>): Option<Box>
    decreases |ops|
  {
    if ops == [] then Some(b)
    else
      match Step(b, ops[0])
      case None => None
      case Some(next) => Run(next, ops[1..])
  }

  /** Every message sent into the slot of another one covers it. */
  predicate Tidy(open: Option<Message>, count: int32, ops: seq<Op>)
    decreases |ops|
  {
    ops == [] ||
    match ops[0]
    case Register => Tidy(open, Successor(count), ops[1..])
    case Send(target, text) => Covers(text, open) && Tidy(NextOpen(Message(count, target, text)), count, ops[1..])
  }

  ghost predicate Sound(b: Box) {
    Holds(b.region, b.count, b.msgs, b.open)
  }

  lemma StepHolds(b: Box, op: Op, next: Box)
    requires Sound(b) && Step(b, op) == Some(next) && (op.Send? ==> Covers(op.text, b.open))
    ensures Sound(next)
  {
    match op
    case Register => RegisterCounts(b.region, b.count, b.msgs, b.open);
    case Send(target, text) => SendAppends(b.region, b.count, b.msgs, b.open, target, text);
  }

  lemma {:induction false} RunHolds(b: Box, ops: seq<Op>, e: Box)
    requires Sound(b) && Tidy(b.open, b.count, ops) && Run(b, ops) == Some(e)
    ensures Sound(e)
    decreases |ops|
  {
    if ops != [] {
      var next := Step(b, ops[0]).value;
      StepHolds(b, ops[0], next);
      RunHolds(next, ops[1..], e);
    }
  }

  lemma EmptyHolds(b: Box)
    requires b == EMPTY
    ensures Sound(b)
  {
    assert EncodeWord(0) == Zeros(4);
    assert Zeros(SHM_SIZE) == Zeros(4) + [] + Zeros(SHM_SIZE - 4);
  }

  /** The client hears the oldest message addressed to it, or what the zeros at the end give. */
  ghost predicate HearsOldest(b: Box, client: int32)
    requires Sound(b)
  {
    ListenIn(b.region[COUNT_SIZE..], client) == HeardFrom(b.msgs, b.open, Unused(b.msgs) - Size(b.open), client)
  }

  lemma SoundHears(b: Box, client: int32)
    requires Sound(b)
    ensures HearsOldest(b, client)
  {
    ListenHearsOldest(b.region, b.count, b.msgs, b.open, client);
  }

  /**
   * From a zeroed region, every tidy run leaves its messages in order, but for those that were overwritten,
   * and every client hears its oldest one.
   */
  lemma MailboxRuns(b: Box, ops: seq<Op>, e: Box, client: int32)
    requires b == EMPTY && Tidy(b.open, b.count, ops) && Run(b, ops) == Some(e)
    ensures Sound(e) && HearsOldest(e, client)
  {
    EmptyHolds(b);
    RunHolds(b, ops, e);
    SoundHears(e, client);
  }

  function Registrations(ops: seq<Op>): nat {
    if ops == [] then 0 else (if ops[0].Register? then 1 else 0) + Registrations(ops[1..])
  }

  /** Every registration raises the count by one, and nothing else does, as long as it is an `int`. */
  lemma {:induction false} CountsRegistrations(b: Box, ops: seq<Op>, e: Box)
    requires Run(b, ops) == Some(e) && b.count + Registrations(ops) < 0x8000_0000
    ensures e.count == b.count + Registrations(ops)
    decreases |ops|
  {
    if ops != [] {
      CountsRegistrations(Step(b, ops[0]).value, ops[1..], e);
    }
  }

  /** No message is sent while the number of registered clients is a multiple of 256. */
  ghost predicate Marked(count: int32, ops: seq<Op>)
    decreases |ops|
  {
    ops == [] ||
    if ops[0].Register? then Marked(Successor(count), ops[1..])
    else count % 256 != 0 && Marked(count, ops[1..])
  }

  /** The messages of a run, in order, each with the count at which it was sent. */
  function SentIn(count: int32, ops: seq<Op>): seq<Message>
    decreases |ops|
  {
    if ops == [] then []
    else
      match ops[0]
      case Register => SentIn(Successor(count), ops[1..])
      case Send(target, text) => [Message(count, target, text)] + SentIn(count, ops[1..])
  }

  /** Such runs are tidy, and none of their messages is overwritten. */
  lemma {:induction false} MarkedRuns(b: Box, ops: seq<Op>)
    requires b.open == None && Marked(b.count, ops) && Run(b, ops).Some?
    ensures Tidy(None, b.count, ops)
    ensures var e := Run(b, ops).value; e.msgs == b.msgs + SentIn(b.count, ops) && e.open == None
    decreases |ops|
  {
    if ops == [] {
      assert b.msgs + [] == b.msgs;
    } else {
      MarkedRuns(Step(b, ops[0]).value, ops[1..]);
      if ops[0].Send? {
        ConcatAssociates(b.msgs, [Message(b.count, ops[0].target, ops[0].text)], SentIn(b.count, ops[1..]));
      }
    }
  }

  // ---------- runs in which a message is lost, or heard though never sent ----------

  /** `listen` on a fresh region reads past the mapping, for every client but 0; and client 0 hears a message. */
  lemma ListenOnFreshRegion(r: Region, client: int32)
    requires r == EMPTY.region
    ensures ListenIn(r[COUNT_SIZE..], client) == if client == 0 then Received(0, []) else PastEnd
  {
    var unused := SHM_SIZE - COUNT_SIZE;
    assert r[COUNT_SIZE..] == Zeros(unused);
    HearZeros(unused, client);
  }

  lemma RunOfTwo(b: Box, x: Op, y: Op)
    requires Step(b, x).Some? && Step(Step(b, x).value, y).Some?
    ensures Run(b, [x, y]) == Step(Step(b, x).value, y)
  {
    var c := Step(b, x).value;
    assert [x, y][1..] == [y] && [y][1..] == [];
    assert Run(c, [y]) == Run(Step(c, y).value, []);
  }

  /**
   * Of two messages sent while the count is a multiple of 256 only the second is in the region afterwards; and
   * the first leaves bytes behind it unless the second covers it.
   */
  lemma OpenMessageIsLost(b: Box, x: Op, y: Op, c: Box, e: Box, end: nat, left: nat)
    requires Sound(b) && b.count % 256 == 0
    requires x.Send? && y.Send? && Covers(x.text, b.open)
    requires Step(b, x) == Some(c) && Step(c, y) == Some(e)
    ensures e.msgs == b.msgs && e.open == Some(Message(b.count, y.target, y.text))
    ensures end == COUNT_SIZE + |Layout(b.msgs)| + METADATA_SIZE + |y.text| + 1 ==> end <= SHM_SIZE
    ensures end == COUNT_SIZE + |Layout(b.msgs)| + METADATA_SIZE + |y.text| + 1 && end + left == SHM_SIZE ==>
      (e.region[end..] == Zeros(left) <==> |x.text| <= |y.text| + 1)
  {
    SendAppends(b.region, b.count, b.msgs, b.open, x.target, x.text);
    if end == COUNT_SIZE + |Layout(b.msgs)| + METADATA_SIZE + |y.text| + 1 {
      RemainsAreLeft(c.region, c.count, c.msgs, c.open, y.target, y.text, end, left);
    }
  }

  lemma SendFits(b: Box, x: Op)
    requires Sound(b) && x.Send? && 0 !in x.text
    requires COUNT_SIZE + |Layout(b.msgs)| + METADATA_SIZE + |x.text| + 1 <= SHM_SIZE
    ensures Step(b, x).Some?
  {
    FindsFreeSlot(b.region, b.count, b.msgs, b.open);
  }

  /** This happens to any two messages sent before anybody has registered. */
  lemma UnregisteredMessageIsLost(b: Box, x: Op, y: Op)
    requires b == EMPTY && x.Send? && y.Send? && 0 !in x.text && 0 !in y.text && |x.text| <= 4083 && |y.text| <= 4083
    ensures Run(b, [x, y]).Some?
    ensures var e := Run(b, [x, y]).value; e.msgs == [] && e.open == Some(Message(0, y.target, y.text))
  {
    EmptyHolds(b);
    SendFits(b, x);
    SendAppends(b.region, b.count, b.msgs, b.open, x.target, x.text);
    var c := Step(b, x).value;
    SendFits(c, y);
    OpenMessageIsLost(b, x, y, c, Step(c, y).value, 0, 0);
    RunOfTwo(b, x, y);
  }
}
