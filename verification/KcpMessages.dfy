/** Fragmentation by ikcp_send and reassembly by ikcp_recv undo each other. */
module KcpMessages {
  import opened Words
  import opened KcpTypes
  import opened KcpSpec
  import opened KcpDirection

  /** The fragments of all messages, in the order they were accepted. */
  ghost function FragAll(mss: nat, msgs: seq<seq<u8>>): seq<Frag>
    requires mss > 0 && forall i :: 0 <= i < |msgs| ==> FragCount(mss, |msgs[i]|) < WND_RCV
  {
    if msgs == [] then []
    else
      var last := msgs[|msgs| - 1];
      FragAll(mss, msgs[..|msgs| - 1]) + Fragment(mss, last, FragCount(mss, |last|))
  }

  ghost predicate Sendable(mss: nat, msgs: seq<seq<u8>>) {
    mss > 0 && forall i :: 0 <= i < |msgs| ==> FragCount(mss, |msgs[i]|) < WND_RCV
  }

  lemma FragCountFits(mss: nat, len: nat)
    requires mss > 0
    ensures FragCount(mss, len) >= 1 && len <= FragCount(mss, len) * mss
  {
    if len > mss {
      var q := (len + mss - 1) / mss;
      assert q * mss + (len + mss - 1) % mss == len + mss - 1;
    }
  }

  lemma {:induction false} FragmentNumbers(mss: nat, msg: seq<u8>, count: nat)
    requires mss > 0 && count <= 0x100
    ensures var fs := Fragment(mss, msg, count);
      |fs| == count && forall i :: 0 <= i < count ==> fs[i].frg == count - 1 - i && |fs[i].data| <= mss
    decreases count
  {
    if count > 0 {
      FragmentNumbers(mss, msg[Min(|msg|, mss)..], count - 1);
    }
  }

  lemma {:induction false} FragmentJoin(mss: nat, msg: seq<u8>, count: nat)
    requires mss > 0 && count <= 0x100 && |msg| <= count * mss
    ensures Join(Fragment(mss, msg, count)) == msg
    decreases count
  {
    if count > 0 {
      var size := Min(|msg|, mss);
      assert count * mss == (count - 1) * mss + mss;
      FragmentJoin(mss, msg[size..], count - 1);
      var fs := Fragment(mss, msg, count);
      assert fs[0].data == msg[..size] && fs[1..] == Fragment(mss, msg[size..], count - 1);
      assert msg == msg[..size] + msg[size..];
    } else {
      assert msg == [];
    }
  }

  /** Fragments numbered down to zero are taken as one message, whatever follows. */
  lemma {:induction false} FirstMessageIs(fs: seq<Frag>, rest: seq<Frag>)
    requires fs != [] && forall i :: 0 <= i < |fs| ==> fs[i].frg == |fs| - 1 - i
    ensures FirstMessage(fs + rest) == fs
    decreases |fs|
  {
    if |fs| > 1 {
      assert (fs + rest)[1..] == fs[1..] + rest;
      FirstMessageIs(fs[1..], rest);
    }
  }

  lemma {:induction false} FragAllPrefix(mss: nat, msgs: seq<seq<u8>>, n: nat)
    requires Sendable(mss, msgs) && n <= |msgs|
    ensures |FragAll(mss, msgs[..n])| <= |FragAll(mss, msgs)|
    ensures FragAll(mss, msgs)[..|FragAll(mss, msgs[..n])|] == FragAll(mss, msgs[..n])
    decreases |msgs|
  {
    if n < |msgs| {
      FragAllPrefix(mss, msgs[..|msgs| - 1], n);
      assert msgs[..|msgs| - 1][..n] == msgs[..n];
    } else {
      assert msgs[..n] == msgs;
    }
  }

  /** The position in the log after the first `n` messages. */
  ghost function Start(mss: nat, msgs: seq<seq<u8>>, n: nat): nat
    requires Sendable(mss, msgs) && n <= |msgs|
  {
    |FragAll(mss, msgs[..n])|
  }

  /** The log after `n` messages continues with the fragments of message `n`. */
  lemma NextMessage(mss: nat, msgs: seq<seq<u8>>, n: nat) returns (fs: seq<Frag>)
    requires Sendable(mss, msgs) && n < |msgs|
    ensures 1 <= |fs| == FragCount(mss, |msgs[n]|) < WND_RCV && Join(fs) == msgs[n]
    ensures forall i :: 0 <= i < |fs| ==> fs[i].frg == |fs| - 1 - i
    ensures Start(mss, msgs, n + 1) == Start(mss, msgs, n) + |fs| <= |FragAll(mss, msgs)|
    ensures FragAll(mss, msgs)[Start(mss, msgs, n)..Start(mss, msgs, n + 1)] == fs
  {
    var count := FragCount(mss, |msgs[n]|);
    FragCountFits(mss, |msgs[n]|);
    fs := Fragment(mss, msgs[n], count);
    FragmentNumbers(mss, msgs[n], count);
    FragmentJoin(mss, msgs[n], count);
    assert msgs[..n + 1][..n] == msgs[..n];
    assert FragAll(mss, msgs[..n + 1]) == FragAll(mss, msgs[..n]) + fs;
    FragAllPrefix(mss, msgs, n + 1);
    assert FragAll(mss, msgs)[..Start(mss, msgs, n + 1)][Start(mss, msgs, n)..] == fs;
  }

  /** A receiver that knows the part `sent` of the log, after `n` messages. */
  ghost predicate ReceivedUpTo(r: Receiver, sent: seq<Frag>, mss: nat, msgs: seq<seq<u8>>, n: nat) {
    Sendable(mss, msgs) && n <= |msgs| && sent <= FragAll(mss, msgs) && ReceiverOk(r, sent, Start(mss, msgs, n))
  }

  /** A nonempty receive queue starts with the next message; all of it or a part. */
  lemma QueueHead(r: Receiver, sent: seq<Frag>, mss: nat, msgs: seq<seq<u8>>, n: nat) returns (fs: seq<Frag>)
    requires ReceivedUpTo(r, sent, mss, msgs, n) && r.queue != []
    ensures n < |msgs| && 1 <= |fs| == FragCount(mss, |msgs[n]|) < WND_RCV && Join(fs) == msgs[n]
    ensures r.queue[0] == fs[0] && fs[0].frg == |fs| - 1
    ensures |fs| <= |r.queue| ==>
      && r.queue[..|fs|] == fs && FirstMessage(r.queue) == fs
      && ReceivedUpTo(r.(queue := r.queue[|fs|..]), sent, mss, msgs, n + 1)
  {
    hide FragAll, Join;
    var log, q := FragAll(mss, msgs), r.queue;
    if n == |msgs| {
      assert Start(mss, msgs, n) == |log| by { assert msgs[..n] == msgs; }
      assert false;
    }
    fs := NextMessage(mss, msgs, n);
    assert q[0] == sent[Start(mss, msgs, n)] == log[Start(mss, msgs, n)] == fs[0];
    if |fs| <= |q| {
      assert q[..|fs|] == sent[Start(mss, msgs, n)..Start(mss, msgs, n + 1)];
      assert q[..|fs|] == log[Start(mss, msgs, n)..Start(mss, msgs, n + 1)];
      assert q == fs + q[|fs|..];
      FirstMessageIs(fs, q[|fs|..]);
      assert q[|fs|..] == sent[Start(mss, msgs, n + 1)..r.nxt];
    }
  }

  lemma PeekWhole(q: seq<Frag>, fs: seq<Frag>)
    requires q != [] && fs != [] && q[0] == fs[0] && q[0].frg == |fs| - 1
    requires |fs| <= |q| ==> FirstMessage(q) == fs
    ensures PeekSize(q) == if |fs| <= |q| then |Join(fs)| else -1
  {
    if |fs| == 1 { assert fs[1..] == []; assert Join(fs) == fs[0].data; }
  }

  /** A successful ikcp_recv returns exactly the next accepted message: the bytes are
      intact, and the merged length is the peeked one (the assert in ikcp_recv). */
  lemma RecvDelivers(k: Kcp, len: int, sent: seq<Frag>, mss: nat, msgs: seq<seq<u8>>, n: nat)
    requires ReceivedUpTo(k.rcv, sent, mss, msgs, n)
    ensures var r := Recv(false, k, len);
      && Advances(k.rcv, r.k.rcv) && r.k.snd == k.snd && SameConfig(k, r.k)
      && (r.code >= 0 ==> n < |msgs| && r.data == msgs[n] && r.code == |r.data| == PeekSize(k.rcv.queue))
      && ReceivedUpTo(r.k.rcv, sent, mss, msgs, if r.code >= 0 && len >= 0 then n + 1 else n)
  {
    hide FragAll, Join, Start, ReceiverOk;
    var q := k.rcv.queue;
    if q != [] && PeekSize(q) >= 0 {
      var fs := QueueHead(k.rcv, sent, mss, msgs, n);
      PeekWhole(q, fs);
      MoveReadyOk(k.rcv, sent, Start(mss, msgs, n));
      MoveReadyOk(k.rcv.(queue := q[|fs|..]), sent, Start(mss, msgs, n + 1));
    }
  }

  /** ikcp_recv returns a message if and only if all fragments of the next accepted message
      are in rcv_queue and the caller's room suffices. */
  lemma RecvIff(k: Kcp, len: int, sent: seq<Frag>, mss: nat, msgs: seq<seq<u8>>, n: nat)
    requires ReceivedUpTo(k.rcv, sent, mss, msgs, n)
    ensures Recv(false, k, len).code >= 0 <==>
      n < |msgs| && FragCount(mss, |msgs[n]|) <= |k.rcv.queue| && |msgs[n]| <= (if len < 0 then -len else len)
  {
    if k.rcv.queue == [] {
      if n < |msgs| { FragCountFits(mss, |msgs[n]|); }
    } else {
      var fs := QueueHead(k.rcv, sent, mss, msgs, n);
      PeekWhole(k.rcv.queue, fs);
    }
    hide FragAll, Join, Start, ReceiverOk, FirstMessage, PeekSize, MoveReady, FragCount;
  }

  /** ikcp_send accepts a message if and only if it fits into fewer fragments than the default
      receive window; then the new part of snd_queue holds its bytes in pieces of at most mss. */
  lemma SendIff(k: Kcp, msg: seq<u8>)
    requires k.mss > 0
    ensures var (k', code) := Send(k, msg);
      && (code >= 0 <==> |msg| <= (WND_RCV - 1) * k.mss)
      && (code < 0 ==> k' == k)
      && (code >= 0 ==>
            && k' == k.(snd := k.snd.(queue := k'.snd.queue)) && k.snd.queue < k'.snd.queue
            && Join(k'.snd.queue[|k.snd.queue|..]) == msg
            && forall f :: f in k'.snd.queue[|k.snd.queue|..] ==> |f.data| <= k.mss)
  {
    var count := FragCount(k.mss, |msg|);
    FragCountFits(k.mss, |msg|);
    FewFragments(k.mss, |msg|);
    if count < WND_RCV {
      FragmentNumbers(k.mss, msg, count);
      FragmentJoin(k.mss, msg, count);
      var fs := Fragment(k.mss, msg, count);
      assert (k.snd.queue + fs)[|k.snd.queue|..] == fs;
    }
    hide Fragment, FragCount, Join;
  }

  lemma FewFragments(mss: nat, len: nat)
    requires mss > 0
    ensures FragCount(mss, len) < WND_RCV <==> len <= (WND_RCV - 1) * mss
  {
    if len > mss {
      var q, top := (len + mss - 1) / mss, WND_RCV - 1;
      assert q * mss <= len + mss - 1 < (q + 1) * mss;
      if q <= top { Multiples(q, top, mss); } else { Multiples(top + 1, q, mss); }
    } else {
      Multiples(1, WND_RCV - 1, mss);
    }
  }

  lemma Multiples(a: nat, b: nat, c: nat)
    requires a <= b
    ensures a * c <= b * c
  {}

  /** A receive queue that is full always holds a whole message: a partly received
      message cannot block the window. */
  lemma FullQueueIsReadable(r: Receiver, sent: seq<Frag>, mss: nat, msgs: seq<seq<u8>>, n: nat)
    requires ReceivedUpTo(r, sent, mss, msgs, n)
    requires |r.queue| >= r.wnd >= WND_RCV
    ensures n < |msgs| && PeekSize(r.queue) == |msgs[n]|
  {
    var fs := QueueHead(r, sent, mss, msgs, n);
    PeekWhole(r.queue, fs);
  }
}
