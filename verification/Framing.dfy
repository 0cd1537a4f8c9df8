/** LDAPPacketizer: cutting the incoming byte stream into packets, and a packet into messages. */
module Framing {
  import opened Ber
  import opened Bytes
  import opened Text
  import ByteOrder

  // -------------------------------------------------- lengths

  /** calcualte_length; None for the IndexError of fewer than two bytes. */
  function MessageLength(data: seq<byte>): (n: Option<nat>)
    ensures n.Some? ==> n.value >= 2
  {
    if |data| < 2 then None
    else if data[1] <= 127 then Some(data[1] + 2)
    else
      var count := data[1] - 128;
      Some(BigValue(Slice(data, 2, 2 + count)) + count + 2)
  }

  const PREREAD := 6

  /** The size of the packet that begins with these six bytes. */
  function PacketSize(plain: bool, head: seq<byte>): (n: nat)
    requires |head| == PREREAD
    ensures n >= 2
  {
    if plain then MessageLength(head).value else BigValue(head[..4]) + 4
  }

  /** Whether a packet can be cut off. */
  predicate Complete(plain: bool, buffer: seq<byte>) {
    |buffer| >= PREREAD && PacketSize(plain, buffer[..PREREAD]) <= |buffer|
  }

  function Cut(plain: bool, buffer: seq<byte>): (n: nat)
    requires Complete(plain, buffer)
    ensures 2 <= n <= |buffer|
  {
    PacketSize(plain, buffer[..PREREAD])
  }

  // -------------------------------------------------- packets

  /** The packets in a buffer, and what is left of it. */
  function Packets(plain: bool, buffer: seq<byte>): seq<seq<byte>> {
    if !Complete(plain, buffer) then []
    else
      var n := Cut(plain, buffer);
      [buffer[..n]] + Packets(plain, buffer[n..])
  }

  function Left(plain: bool, buffer: seq<byte>): seq<byte> {
    if !Complete(plain, buffer) then buffer else Left(plain, buffer[Cut(plain, buffer)..])
  }

  function Joined(parts: seq<seq<byte>>): seq<byte> {
    if parts == [] then [] else parts[0] + Joined(parts[1..])
  }

  class Packetizer {
    var inBuffer: seq<byte>
    var isPlainMsg: bool

    constructor ()
      ensures inBuffer == [] && isPlainMsg
    {
      inBuffer, isPlainMsg := [], true;
    }

    method ProcessBuffer() returns (packets: seq<seq<byte>>)
      modifies this`inBuffer
      ensures packets == Packets(isPlainMsg, old(inBuffer)) && inBuffer == Left(isPlainMsg, old(inBuffer))
    {
      packets := [];
      assert [] + Packets(isPlainMsg, inBuffer) == Packets(isPlainMsg, inBuffer);
      while true
        invariant packets + Packets(isPlainMsg, inBuffer) == Packets(isPlainMsg, old(inBuffer))
        invariant Left(isPlainMsg, inBuffer) == Left(isPlainMsg, old(inBuffer))
        decreases |inBuffer|
      {
        if |inBuffer| < PREREAD {
          break;
        }
        var size := PacketSize(isPlainMsg, inBuffer[..PREREAD]);
        if size <= |inBuffer| {
          var data := inBuffer[..size];
          MorePackets(isPlainMsg, packets, inBuffer);
          inBuffer := inBuffer[size..];
          packets := packets + [data];
          continue;
        }
        break;
      }
      assert packets + [] == packets;
    }

    method DataIn(data: seq<byte>) returns (packets: seq<seq<byte>>)
      modifies this`inBuffer
      ensures packets == Packets(isPlainMsg, old(inBuffer) + data) && inBuffer == Left(isPlainMsg, old(inBuffer) + data)
    {
      inBuffer := inBuffer + data;
      packets := ProcessBuffer();
    }
  }

  lemma MorePackets(plain: bool, done: seq<seq<byte>>, buffer: seq<byte>)
    requires Complete(plain, buffer)
    ensures var n := Cut(plain, buffer);
            done + Packets(plain, buffer) == done + [buffer[..n]] + Packets(plain, buffer[n..])
  {
    var n := Cut(plain, buffer);
    assert done + ([buffer[..n]] + Packets(plain, buffer[n..])) == done + [buffer[..n]] + Packets(plain, buffer[n..]);
  }

  // -------------------------------------------------- any buffer

  /** No byte is lost, made up or moved. */
  lemma {:induction false} PacketsAreTheInput(plain: bool, buffer: seq<byte>)
    ensures Joined(Packets(plain, buffer)) + Left(plain, buffer) == buffer
    ensures !Complete(plain, Left(plain, buffer))
    decreases |buffer|
  {
    hide Complete, Cut;
    if Complete(plain, buffer) {
      var n := Cut(plain, buffer);
      var p, rest := buffer[..n], Packets(plain, buffer[n..]);
      PacketsAreTheInput(plain, buffer[n..]);
      assert ([p] + rest)[1..] == rest;
      assert p + Joined(rest) + Left(plain, buffer[n..]) == p + (Joined(rest) + Left(plain, buffer[n..]));
      assert buffer == p + buffer[n..];
    }
  }

  lemma CutThen(plain: bool, a: seq<byte>, b: seq<byte>)
    requires Complete(plain, a)
    ensures Complete(plain, a + b) && Cut(plain, a + b) == Cut(plain, a)
    ensures var n := Cut(plain, a); (a + b)[..n] == a[..n] && (a + b)[n..] == a[n..] + b
  {
    assert (a + b)[..PREREAD] == a[..PREREAD];
    var n := Cut(plain, a);
    assert (a + b)[n..] == a[n..] + b;
  }

  /** More bytes continue from what was left. */
  lemma {:induction false} PacketsAppend(plain: bool, a: seq<byte>, b: seq<byte>)
    ensures Packets(plain, a + b) == Packets(plain, a) + Packets(plain, Left(plain, a) + b)
    ensures Left(plain, a + b) == Left(plain, Left(plain, a) + b)
    decreases |a|
  {
    hide Complete, Cut;
    if Complete(plain, a) {
      var n := Cut(plain, a);
      CutThen(plain, a, b);
      PacketsAppend(plain, a[n..], b);
    } else {
      assert [] + Packets(plain, a + b) == Packets(plain, a + b);
    }
  }

  /** The packets and the buffer after these chunks have come in. */
  function Fed(plain: bool, buffer: seq<byte>, chunks: seq<seq<byte>>): (seq<seq<byte>>, seq<byte>)
    decreases |chunks|
  {
    if chunks == [] then ([], buffer)
    else
      var b := buffer + chunks[0];
      var (ps, left) := Fed(plain, Left(plain, b), chunks[1..]);
      (Packets(plain, b) + ps, left)
  }

  /** Cutting does not depend on the chunks in which the stream comes in. */
  lemma {:induction false} ChunksDoNotMatter(plain: bool, buffer: seq<byte>, chunks: seq<seq<byte>>)
    requires !Complete(plain, buffer)
    ensures Fed(plain, buffer, chunks) == (Packets(plain, buffer + Joined(chunks)),
        Left(plain, buffer + Joined(chunks)))
    decreases |chunks|
  {
    hide Complete, Packets, Left, Joined;
    if chunks == [] {
      NothingJoined();
      assert buffer + [] == buffer;
      NotComplete(plain, buffer);
    } else {
      var b, rest := buffer + chunks[0], chunks[1..];
      PacketsAreTheInput(plain, b);
      ChunksDoNotMatter(plain, Left(plain, b), rest);
      PacketsAppend(plain, b, Joined(rest));
      JoinedCons(chunks[0], rest);
      assert chunks == [chunks[0]] + rest && buffer + (chunks[0] + Joined(rest)) == b + Joined(rest);
    }
  }

  lemma NotComplete(plain: bool, buffer: seq<byte>)
    requires !Complete(plain, buffer)
    ensures Packets(plain, buffer) == [] && Left(plain, buffer) == buffer
  {}

  // -------------------------------------------------- messages

  /** calcualte_length of a message gives its length: reading the octets is what stating them means. */
  lemma LengthIs(m: seq<byte>)
    requires IsMessage(m)
    ensures MessageLength(m) == Some(|m|)
    ensures m[1] > 127 ==> 129 <= m[1] <= 132 && 2 + (m[1] - 128) <= |m|
  {
    var k: nat := if HasLength(m, 1) then 1 else if HasLength(m, 2) then 2 else if HasLength(m, 3) then 3
                  else if HasLength(m, 4) then 4 else 5;
    var os := m[1..1 + k];
    assert os[0] == m[1];
    if k > 1 {
      assert Slice(m, 2, 1 + k) == os[1..];
      BigValueOf(os[1..]);
    }
  }

  /** And a text of that length whose first octets are there is a message. */
  lemma MessageExactly(m: seq<byte>)
    ensures IsMessage(m) <==>
            && |m| >= 2 && (m[1] <= 127 || (129 <= m[1] <= 132 && |m| >= 2 + (m[1] - 128)))
            && MessageLength(m) == Some(|m|)
  {
    if IsMessage(m) { LengthIs(m); }
    if |m| >= 2 && m[1] <= 127 {
      assert m[1..2] == [m[1]];
    } else if |m| >= 2 && 129 <= m[1] <= 132 && |m| >= 2 + (m[1] - 128) {
      var k := m[1] - 127;
      var os := m[1..1 + k];
      assert Slice(m, 2, 1 + k) == os[1..];
      BigValueOf(os[1..]);
      assert MessageLength(m) == Some(|m|) ==> HasLength(m, k);
    }
  }

  /** Of a first length octet from 128 on: the indefinite form counts as a message of two bytes, and of a
      length in more octets than are there, as in the six bytes that the packetizer looks at, those that
      are there are taken for all. */
  lemma OtherLengths(data: seq<byte>)
    requires |data| >= 2 && data[1] >= 128
    ensures data[1] == 128 ==> MessageLength(data) == Some(2)
    ensures |data| <= 2 + (data[1] - 128) ==>
              MessageLength(data) == Some(2 + (data[1] - 128) + ByteOrder.BigSum(data[2..]))
  {
    var count := data[1] - 128;
    if count == 0 {
      assert Slice(data, 2, 2) == [];
    }
    if |data| <= 2 + count {
      assert Slice(data, 2, 2 + count) == data[2..];
      ByteOrder.BigIs(data[2..]);
    }
  }

  /** With encryption, four octets that spell the length of what follows, the most significant first. */
  predicate IsSealed(m: seq<byte>) {
    |m| >= 4 && |m| - 4 == Four(m[0], m[1], m[2], m[3])
  }

  /** What a packet has to be. */
  predicate IsFrame(plain: bool, m: seq<byte>) { if plain then IsMessage(m) else IsSealed(m) }

  predicate AllFrames(plain: bool, ms: seq<seq<byte>>) { forall k | 0 <= k < |ms| :: IsFrame(plain, ms[k]) }

  /** The length of a message is in its first bytes, whatever follows. */
  lemma LengthThen(m: seq<byte>, more: seq<byte>)
    requires IsMessage(m)
    ensures MessageLength(m + more) == Some(|m|)
    ensures |m + more| >= PREREAD ==> MessageLength((m + more)[..PREREAD]) == Some(|m|)
  {
    LengthIs(m);
    hide IsMessage;
    if m[1] > 127 {
      var count := m[1] - 128;
      SliceThen(m, more, 2 + count);
      if |m + more| >= PREREAD { SliceOfHead(m + more, 2 + count); }
    }
  }

  /** So is that of any packet. */
  lemma SizeThen(plain: bool, m: seq<byte>, more: seq<byte>)
    requires IsFrame(plain, m) && |m + more| >= PREREAD
    ensures PacketSize(plain, (m + more)[..PREREAD]) == |m|
  {
    if plain {
      LengthThen(m, more);
    } else {
      var os := (m + more)[..PREREAD][..4];
      assert os == m[..4];
      BigValueOf(os);
    }
  }

  lemma SliceThen(m: seq<byte>, more: seq<byte>, n: nat)
    requires 2 <= n <= |m|
    ensures Slice(m + more, 2, n) == Slice(m, 2, n)
  {
    assert (m + more)[2..n] == m[2..n];
  }

  lemma SliceOfHead(s: seq<byte>, n: nat)
    requires 2 <= n <= PREREAD <= |s|
    ensures Slice(s[..PREREAD], 2, n) == Slice(s, 2, n)
  {
    assert s[..PREREAD][2..n] == s[2..n];
  }

  /** How many messages at the front are cut off: a message comes out once six bytes are there. */
  function CutOff(ms: seq<seq<byte>>): (k: nat)
    ensures k <= |ms|
  {
    if ms == [] || |Joined(ms)| < PREREAD then 0 else 1 + CutOff(ms[1..])
  }

  lemma CutFrame(plain: bool, m: seq<byte>, more: seq<byte>)
    requires IsFrame(plain, m) && |m + more| >= PREREAD
    ensures Complete(plain, m + more) && Cut(plain, m + more) == |m|
    ensures (m + more)[..|m|] == m && (m + more)[|m|..] == more
    ensures Packets(plain, m + more) == [m] + Packets(plain, more) && Left(plain, m + more) == Left(plain, more)
  {
    hide IsFrame, PacketSize;
    SizeThen(plain, m, more);
  }

  lemma TooShort(plain: bool, s: seq<byte>)
    requires |s| < PREREAD
    ensures Packets(plain, s) == [] && Left(plain, s) == s
  {}

  lemma JoinedCons(m: seq<byte>, ms: seq<seq<byte>>)
    ensures Joined([m] + ms) == m + Joined(ms)
  {
    assert ([m] + ms)[1..] == ms;
  }

  /** Of messages in a row the packets are the first ones, exactly; the others wait. */
  lemma {:induction false} PacketsOfMessages(plain: bool, ms: seq<seq<byte>>)
    requires AllFrames(plain, ms)
    ensures Packets(plain, Joined(ms)) == ms[..CutOff(ms)] && Left(plain, Joined(ms)) == Joined(ms[CutOff(ms)..])
    decreases |ms|
  {
    hide IsFrame, Packets, Left, Joined;
    if ms == [] || |Joined(ms)| < PREREAD {
      if ms == [] { NothingJoined(); }
      TooShort(plain, Joined(ms));
      assert ms[..0] == [] && ms[0..] == ms;
    } else {
      var m, rest := ms[0], ms[1..];
      assert ms == [m] + rest;
      JoinedCons(m, rest);
      CutFrame(plain, m, Joined(rest));
      PacketsOfMessages(plain, rest);
      var k := CutOff(rest);
      assert ms[..1 + k] == [m] + rest[..k] && ms[1 + k..] == rest[k..];
    }
  }

  lemma NothingJoined()
    ensures Joined([]) == []
  {}

  lemma {:induction false} CutOffAll(ms: seq<seq<byte>>)
    ensures CutOff(ms) == |ms| <==> ms == [] || |ms[|ms| - 1]| >= PREREAD
    decreases |ms|
  {
    hide Joined;
    if ms != [] {
      CutOffAll(ms[1..]);
      if |ms| == 1 {
        assert ms == [ms[0]];
        JoinedOne(ms[0]);
      } else {
        JoinedAtLeast(ms);
      }
    }
  }

  lemma JoinedOne(m: seq<byte>)
    ensures Joined([m]) == m
  {
    assert [m][1..] == [] && m + [] == m;
  }

  lemma {:induction false} JoinedAtLeast(ms: seq<seq<byte>>)
    requires ms != []
    ensures |Joined(ms)| >= |ms[|ms| - 1]|
    decreases |ms|
  {
    if |ms| > 1 { JoinedAtLeast(ms[1..]); }
  }

  /** However the server's messages are cut into chunks, in either mode the packets are exactly the
      messages, if and only if there is no message or the last one has six bytes. */
  lemma MessagesExactly(plain: bool, ms: seq<seq<byte>>, chunks: seq<seq<byte>>)
    requires AllFrames(plain, ms) && Joined(chunks) == Joined(ms)
    ensures Fed(plain, [], chunks) == (ms, []) <==> ms == [] || |ms[|ms| - 1]| >= PREREAD
  {
    hide IsFrame, Complete;
    assert !Complete(plain, []) by { NothingComplete(plain); }
    ChunksDoNotMatter(plain, [], chunks);
    assert [] + Joined(chunks) == Joined(ms);
    PacketsOfMessages(plain, ms);
    CutOffAll(ms);
    if CutOff(ms) == |ms| {
      assert ms[..|ms|] == ms && ms[|ms|..] == [];
    } else {
      assert |ms[..CutOff(ms)]| == CutOff(ms);
    }
  }

  /** While the stream is coming in, the packets so far are the first messages. */
  lemma FirstMessages(plain: bool, ms: seq<seq<byte>>, sofar: seq<seq<byte>>, later: seq<seq<byte>>) returns (k: nat)
    requires AllFrames(plain, ms) && (ms != [] ==> |ms[|ms| - 1]| >= PREREAD)
    requires Joined(sofar) + Joined(later) == Joined(ms)
    ensures k <= |ms| && Fed(plain, [], sofar).0 == ms[..k]
  {
    hide IsFrame, Complete;
    var a, b := Joined(sofar), Joined(later);
    assert !Complete(plain, []) by { NothingComplete(plain); }
    ChunksDoNotMatter(plain, [], sofar);
    assert [] + a == a;
    PacketsAppend(plain, a, b);
    PacketsOfMessages(plain, ms);
    CutOffAll(ms);
    assert ms[..|ms|] == ms;
    k := |Packets(plain, a)|;
  }

  lemma NothingComplete(plain: bool)
    ensures !Complete(plain, [])
  {}

  /** A message of eleven bytes with a length of the form 0x84, as Active Directory sends it. */
  lemma LongFormExample(m: seq<byte>)
    requires m == [0x30, 0x84, 0, 0, 0, 5, 2, 1, 5, 0x42, 0]
    ensures IsMessage(m) && Packets(true, m) == [m] && Left(true, m) == []
  {
    var os, contents := [0x84, 0, 0, 0, 5], [2, 1, 5, 0x42, 0];
    assert States(os, |contents|);
    MessageOf(0x30, os, contents);
    assert m == [0x30] + os + contents;
    assert m + [] == m;
    CutFrame(true, m, []);
    TooShort(true, []);
  }

  // -------------------------------------------------- several messages in a packet

  /** The parts that the loop over a packet hands to the decoder; None for an IndexError. */
  function Parts(data: seq<byte>): Option<seq<seq<byte>>> {
    if data == [] then Some([])
    else
      var n := MessageLength(data);
      if n.None? then None
      else
        var rest := Parts(Drop(data, n.value));
        if rest.None? then None else Some([Take(data, n.value)] + rest.value)
  }

  /** The beginning of __handle_incoming: a packet of exactly one message, or the loop. */
  method SplitMessages(data: seq<byte>) returns (parts: Option<seq<seq<byte>>>)
    ensures parts == if data == [] then None else Parts(data)
  {
    var length := MessageLength(data);
    if length.None? {
      return None;
    }
    var messages: seq<seq<byte>> := [];
    var left := data;
    if length.value == |data| {
      OnePart(data);
      messages := [data];
    } else {
      assert Prefixed([], Parts(left)) == Parts(left) by { PrefixedNothing(Parts(left)); }
      while |left| > 0
        invariant Prefixed(messages, Parts(left)) == Parts(data)
        decreases |left|
      {
        length := MessageLength(left);
        if length.None? {
          return None;
        }
        PrefixedTwice(messages, [Take(left, length.value)], Parts(Drop(left, length.value)));
        messages := messages + [Take(left, length.value)];
        left := Drop(left, length.value);
      }
      assert messages + [] == messages;
    }
    parts := Some(messages);
  }

  function Prefixed(a: seq<seq<byte>>, b: Option<seq<seq<byte>>>): Option<seq<seq<byte>>> {
    if b.None? then None else Some(a + b.value)
  }

  lemma PrefixedNothing(b: Option<seq<seq<byte>>>)
    ensures Prefixed([], b) == b
  {
    if b.Some? { assert [] + b.value == b.value; }
  }

  lemma PrefixedTwice(a: seq<seq<byte>>, b: seq<seq<byte>>, c: Option<seq<seq<byte>>>)
    ensures Prefixed(a, Prefixed(b, c)) == Prefixed(a + b, c)
  {
    if c.Some? { assert a + (b + c.value) == a + b + c.value; }
  }

  lemma OnePart(data: seq<byte>)
    requires MessageLength(data) == Some(|data|)
    ensures Parts(data) == Some([data])
  {
    assert Take(data, |data|) == data && Drop(data, |data|) == [];
    assert Parts([]) == Some([]) && [data] + [] == [data];
  }

  /** The loop loses nothing, and takes messages in a row apart. */
  lemma {:induction false} PartsAreThePacket(data: seq<byte>)
    requires Parts(data).Some?
    ensures Joined(Parts(data).value) == data
    decreases |data|
  {
    if data != [] {
      var n := MessageLength(data).value;
      var rest := Parts(Drop(data, n)).value;
      PartsAreThePacket(Drop(data, n));
      assert data == Take(data, n) + Drop(data, n);
      assert ([Take(data, n)] + rest)[1..] == rest;
    }
  }

  lemma {:induction false} PartsOfMessages(ms: seq<seq<byte>>)
    requires AllFrames(true, ms)
    ensures Parts(Joined(ms)) == Some(ms)
    decreases |ms|
  {
    hide IsMessage;
    if ms != [] {
      var m, more := ms[0], Joined(ms[1..]);
      LengthThen(m, more);
      assert Take(m + more, |m|) == m && Drop(m + more, |m|) == more;
      PartsOfMessages(ms[1..]);
      assert ms == [m] + ms[1..];
    }
  }
}
