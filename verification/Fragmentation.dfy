/** Cutting a message into fragments and merging fragments into a message are inverse. */
module Fragmentation {
  import opened Serial
  import opened Wire
  import opened Sender
  import Lists
  import Receiver

  function Bytes(frags: seq<Frag>): seq<byte> {
    if frags == [] then [] else frags[0].data + Bytes(frags[1..])
  }

  lemma {:induction false} BytesAppend(a: seq<Frag>, b: seq<Frag>)
    ensures Bytes(a + b) == Bytes(a) + Bytes(b)
  {
    if a == [] {
      assert a + b == b;
    } else {
      assert (a + b)[1..] == a[1..] + b;
      BytesAppend(a[1..], b);
    }
  }

  /** Nothing of the message is lost when `count` pieces can hold it. */
  lemma {:induction false} FragmentsBytes(msg: seq<byte>, count: nat, mss: nat, stream: bool)
    requires count < MAX_FRAGMENTS && |msg| <= count * mss
    ensures Bytes(Fragments(msg, count, mss, stream)) == msg
  {
    if count > 0 {
      var size := if |msg| > mss then mss else |msg|;
      assert |msg[size..]| <= (count - 1) * mss by {
        assert count * mss == (count - 1) * mss + mss;
        TimesMonotone(0, count - 1, mss);
      }
      FragmentsBytes(msg[size..], count - 1, mss, stream);
      assert msg == msg[..size] + msg[size..];
      var f := Fragments(msg, count, mss, stream);
      assert f[0].data == msg[..size] && f[1..] == Fragments(msg[size..], count - 1, mss, stream);
    } else {
      assert |msg| == 0;
    }
  }

  /** No piece exceeds `mss`, and outside stream mode `frg` counts down to zero. */
  lemma {:induction false} FragmentsShape(msg: seq<byte>, count: nat, mss: nat, stream: bool)
    requires count < MAX_FRAGMENTS
    ensures |Fragments(msg, count, mss, stream)| == count
    ensures forall i :: 0 <= i < count ==>
      |Fragments(msg, count, mss, stream)[i].data| <= mss
      && Fragments(msg, count, mss, stream)[i].frg == (if stream then 0 else count - 1 - i)
  {
    if count > 0 {
      var size := if |msg| > mss then mss else |msg|;
      FragmentsShape(msg[size..], count - 1, mss, stream);
      var f, tail := Fragments(msg, count, mss, stream), Fragments(msg[size..], count - 1, mss, stream);
      hide Fragments;
      assert forall i :: 1 <= i < |f| ==> f[i] == tail[i - 1];
    }
  }

  lemma TimesMonotone(a: int, b: int, m: nat)
    requires a <= b
    ensures a * m <= b * m
  {}

  lemma CountSuffices(len: nat, mss: nat)
    requires mss > 0
    ensures len <= FragmentCount(len, mss) * mss && FragmentCount(len, mss) > 0
    ensures FragmentCount(len, mss) < MAX_FRAGMENTS <==> len <= 127 * mss
  {
    if len > mss {
      var n := len + mss - 1;
      var c := n / mss;
      assert c * mss <= n < c * mss + mss;
      if c <= 127 { TimesMonotone(c, 127, mss); } else { TimesMonotone(128, c, mss); }
    }
  }

  /** The fragments of one accepted message outside stream mode. */
  function MessageFragments(msg: seq<byte>, mss: nat): (f: seq<Frag>)
    requires 0 < mss && |msg| <= 127 * mss
    ensures 0 < |f| < MAX_FRAGMENTS && Bytes(f) == msg
    ensures forall i :: 0 <= i < |f| ==> |f[i].data| <= mss && f[i].frg == |f| - 1 - i
  {
    CountSuffices(|msg|, mss);
    FragmentsBytes(msg, FragmentCount(|msg|, mss), mss, false);
    FragmentsShape(msg, FragmentCount(|msg|, mss), mss, false);
    Fragments(msg, FragmentCount(|msg|, mss), mss, false)
  }

  /** A send outside stream mode is refused exactly when it would need 128 fragments or more, and
      otherwise queues the fragments of the message and nothing else. */
  lemma SendMessage(s: Snd, mss: nat, msg: seq<byte>)
    requires mss > 0
    ensures Send(s, mss, false, msg).code == (if |msg| <= 127 * mss then 0 else -2)
    ensures |msg| > 127 * mss ==> Send(s, mss, false, msg).snd == s
    ensures |msg| <= 127 * mss ==>
      Send(s, mss, false, msg).snd.queue == s.queue + MessageFragments(msg, mss)
      && Send(s, mss, false, msg).snd.buf == s.buf && Send(s, mss, false, msg).snd.una == s.una
      && Send(s, mss, false, msg).snd.nxt == s.nxt
  {
    CountSuffices(|msg|, mss);
  }

  /** In stream mode the queue grows by the bytes of the message; when the rest is too long and the
      call is refused, what went into the tail segment stays there. */
  lemma SendStream(s: Snd, mss: nat, msg: seq<byte>)
    requires mss > 0 && forall i :: 0 <= i < |s.queue| ==> |s.queue[i].data| <= mss
    ensures var r := Send(s, mss, true, msg);
      && Bytes(r.snd.queue) == Bytes(s.queue) + (if r.code == 0 then msg else msg[..Extend(s, mss, |msg|)])
      && (r.code == 0 <==> |msg| - Extend(s, mss, |msg|) <= 127 * mss)
      && (forall i :: 0 <= i < |r.snd.queue| ==> |r.snd.queue[i].data| <= mss)
      && s.buf == r.snd.buf
  {
    hide *;
    var e, ext := Extend(s, mss, |msg|), Extended(s, mss, msg);
    SendStreamIs(s, mss, msg);
    var rest := msg[e..];
    ExtendedBytes(s, mss, msg);
    EnqueueBytes(ext, mss, rest);
    Lists.Halves(msg, e);
    Lists.Associative(Bytes(s.queue), msg[..e], rest);
    assert rest == [] ==> msg[..e] == msg;
  }

  lemma SendStreamIs(s: Snd, mss: nat, msg: seq<byte>)
    requires mss > 0
    ensures Extend(s, mss, |msg|) <= |msg|
    ensures var ext, rest := Extended(s, mss, msg), msg[Extend(s, mss, |msg|)..];
      Send(s, mss, true, msg) == (if rest == [] then SendResult(ext, 0) else Enqueue(ext, mss, true, rest))
    ensures Extended(s, mss, msg).buf == s.buf
  {
    hide Enqueue;
  }

  /** What a send queues behind the tail segment. */
  lemma EnqueueBytes(s: Snd, mss: nat, msg: seq<byte>)
    requires mss > 0 && forall i :: 0 <= i < |s.queue| ==> |s.queue[i].data| <= mss
    ensures var r := Enqueue(s, mss, true, msg);
      && Bytes(r.snd.queue) == (if r.code == 0 then Bytes(s.queue) + msg else Bytes(s.queue))
      && (r.code == 0 <==> |msg| <= 127 * mss)
      && (forall i :: 0 <= i < |r.snd.queue| ==> |r.snd.queue[i].data| <= mss)
      && r.snd.buf == s.buf
  {
    CountSuffices(|msg|, mss);
    var count := FragmentCount(|msg|, mss);
    if count < MAX_FRAGMENTS {
      FragmentsBytes(msg, count, mss, true);
      FragmentsShape(msg, count, mss, true);
      BytesAppend(s.queue, Fragments(msg, count, mss, true));
    }
    hide Fragments, Bytes, FragmentCount;
  }

  /** Every queued segment but the last is full. */
  predicate Packed(queue: seq<Frag>, mss: nat) {
    forall i :: 0 <= i < |queue| - 1 ==> |queue[i].data| == mss
  }

  lemma CountTight(len: nat, mss: nat)
    requires mss > 0 && len > 0
    ensures len > (FragmentCount(len, mss) - 1) * mss
  {
    if len > mss {
      var n := len + mss - 1;
      var c := n / mss;
      assert c * mss <= n;
      assert (c - 1) * mss == c * mss - mss;
    }
  }

  lemma {:induction false} FragmentsPacked(msg: seq<byte>, count: nat, mss: nat, stream: bool)
    requires 0 < count < MAX_FRAGMENTS && |msg| > (count - 1) * mss
    ensures Packed(Fragments(msg, count, mss, stream), mss) && |Fragments(msg, count, mss, stream)| == count
    decreases count
  {
    FragmentsShape(msg, count, mss, stream);
    if count > 1 {
      assert (count - 1) * mss == (count - 2) * mss + mss;
      TimesMonotone(0, count - 2, mss);
      FragmentsPacked(msg[mss..], count - 1, mss, stream);
      var f, tail := Fragments(msg, count, mss, stream), Fragments(msg[mss..], count - 1, mss, stream);
      assert f[0].data == msg[..mss] && f[1..] == tail;
      hide Fragments;
      assert forall i :: 1 <= i < |f| ==> f[i] == tail[i - 1];
    }
  }

  lemma PackedJoin(a: seq<Frag>, b: seq<Frag>, mss: nat)
    requires Packed(a, mss) && Packed(b, mss) && (a != [] ==> |a[|a| - 1].data| == mss)
    ensures Packed(a + b, mss)
  {}

  /** In stream mode a send fills the tail segment before it begins another: all queued segments but the last
      stay full. */
  lemma StreamPacked(s: Snd, mss: nat, msg: seq<byte>)
    requires mss > 0 && Packed(s.queue, mss) && forall i :: 0 <= i < |s.queue| ==> |s.queue[i].data| <= mss
    ensures Packed(Send(s, mss, true, msg).snd.queue, mss)
  {
    var e, ext := Extend(s, mss, |msg|), Extended(s, mss, msg);
    SendStreamIs(s, mss, msg);
    var rest := msg[e..];
    TailFilled(s, mss, msg);
    if rest != [] {
      CountSuffices(|rest|, mss);
      CountTight(|rest|, mss);
      var count := FragmentCount(|rest|, mss);
      if count < MAX_FRAGMENTS {
        FragmentsPacked(rest, count, mss, true);
        PackedJoin(ext.queue, Fragments(rest, count, mss, true), mss);
      }
    }
    hide Send, Extend, Extended, FragmentCount, Fragments, Packed;
  }

  lemma TailFilled(s: Snd, mss: nat, msg: seq<byte>)
    requires mss > 0 && Packed(s.queue, mss) && forall i :: 0 <= i < |s.queue| ==> |s.queue[i].data| <= mss
    ensures var q := Extended(s, mss, msg).queue;
      && Packed(q, mss)
      && (q != [] && Extend(s, mss, |msg|) < |msg| ==> |q[|q| - 1].data| == mss)
  {}

  /** A refused send leaves the sender as it was exactly when the tail segment took nothing. */
  lemma RefusedUnchangedExactly(s: Snd, mss: nat, msg: seq<byte>)
    requires mss > 0 && |msg| - Extend(s, mss, |msg|) > 127 * mss
    ensures Send(s, mss, true, msg).code != 0
    ensures Send(s, mss, true, msg).snd == s <==> Extend(s, mss, |msg|) == 0
  {
    var e := Extend(s, mss, |msg|);
    CountSuffices(|msg[e..]|, mss);
    hide FragmentCount, Fragments;
    if s.queue != [] && |s.queue[|s.queue| - 1].data| < mss {
      assert |Extended(s, mss, msg).queue[|s.queue| - 1].data| == |s.queue[|s.queue| - 1].data| + e;
    }
  }

  /** A tail segment with one byte of two takes a byte of a message that is refused. */
  lemma RefusedSendChanges()
    ensures var s, msg := Snd(0, 0, [Frag(0, [1])], [], 1, 0), seq(256, i => 0);
      Send(s, 2, true, msg).code == -2 && Send(s, 2, true, msg).snd == s.(queue := [Frag(0, [1, 0])])
  {
    var s, msg: seq<byte> := Snd(0, 0, [Frag(0, [1])], [], 1, 0), seq(256, i => 0);
    assert FragmentCount(255, 2) == 128;
    assert [1] + msg[..1] == [1, 0] && |msg[1..]| == 255;
    hide Fragments, FragmentCount;
  }

  lemma ExtendedBytes(s: Snd, mss: nat, msg: seq<byte>)
    requires forall i :: 0 <= i < |s.queue| ==> |s.queue[i].data| <= mss
    ensures Bytes(Extended(s, mss, msg).queue) == Bytes(s.queue) + msg[..Extend(s, mss, |msg|)]
    ensures forall i :: 0 <= i < |Extended(s, mss, msg).queue| ==> |Extended(s, mss, msg).queue[i].data| <= mss
    ensures |Extended(s, mss, msg).queue| == |s.queue|
  {
    if s.queue != [] && |s.queue[|s.queue| - 1].data| < mss {
      var n := |s.queue| - 1;
      var init, last, more := s.queue[..n], s.queue[n], msg[..Extend(s, mss, |msg|)];
      assert s.queue == init + [last];
      BytesAppend(init, [last]);
      BytesAppend(init, [Frag(0, last.data + more)]);
      assert Bytes([last]) == last.data && Bytes([Frag(0, last.data + more)]) == last.data + more;
    }
  }

  ghost predicate Carries(w: WireSeg, f: Frag) {
    w.frg == f.frg && w.data == f.data
  }

  /** Received segments carrying the fragments of a message, followed by anything, merge into exactly it. */
  lemma Reassembly(r: Receiver.Rcv, msg: seq<byte>, mss: nat)
    requires 0 < mss && |msg| <= 127 * mss && r.nque == |r.queue|
    requires |MessageFragments(msg, mss)| <= |r.queue|
    requires forall i :: 0 <= i < |MessageFragments(msg, mss)| ==> Carries(r.queue[i], MessageFragments(msg, mss)[i])
    ensures Receiver.MergeCount(r.queue) == |MessageFragments(msg, mss)|
    ensures Receiver.Payload(r.queue[..|MessageFragments(msg, mss)|]) == msg
    ensures Receiver.PeekSize(r) == |msg|
  {
    var f := MessageFragments(msg, mss);
    var head := r.queue[..|f|];
    assert Receiver.MergeCount(r.queue) == |f| by { MergeCountUnique(r.queue, |f|); }
    assert Receiver.Payload(head) == Bytes(f) by { PayloadBytes(head, f); }
    if r.queue[0].frg == 0 {
      assert head == [r.queue[0]];
      assert Receiver.Payload(head) == head[0].data + Receiver.Payload(head[1..]);
    }
  }

  lemma {:induction false} MergeCountUnique(q: seq<WireSeg>, k: nat)
    requires 0 < k <= |q| && q[k - 1].frg == 0
    requires forall i :: 0 <= i < k - 1 ==> q[i].frg != 0
    ensures Receiver.MergeCount(q) == k
  {
    if k > 1 {
      MergeCountUnique(q[1..], k - 1);
    }
  }

  lemma {:induction false} PayloadBytes(w: seq<WireSeg>, f: seq<Frag>)
    requires |w| == |f| && forall i :: 0 <= i < |f| ==> Carries(w[i], f[i])
    ensures Receiver.Payload(w) == Bytes(f)
  {
    if w != [] {
      PayloadBytes(w[1..], f[1..]);
    }
  }
}
