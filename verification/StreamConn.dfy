// The two ends of a stream: a writer for both sides, and a reader that hands
// each side the payloads sent to it.
module StreamConns {
  import opened StreamFrames

  // Frames of a client are for the server, side 0, and the other way round.
  function SideOf(isClient: bool): nat {
    if isClient then 0 else 1
  }

  function Concat(q: seq<seq<Byte>>): seq<Byte> {
    if q == [] then [] else Concat(q[..|q| - 1]) + q[|q| - 1]
  }

  // All that the client, or else the server, wrote, in order.
  function Payloads(fs: seq<Frame>, client: bool): seq<Byte> {
    if fs == [] then []
    else Payloads(fs[..|fs| - 1], client) + if fs[|fs| - 1].isClient == client then fs[|fs| - 1].payload else []
  }

  lemma {:induction false} PayloadsJoin(a: seq<Frame>, b: seq<Frame>, client: bool)
    ensures Payloads(a + b, client) == Payloads(a, client) + Payloads(b, client)
  {
    if b == [] {
      assert a + b == a;
    } else {
      assert (a + b)[..|a + b| - 1] == a + b[..|b| - 1];
      PayloadsJoin(a, b[..|b| - 1], client);
    }
  }

  lemma ConcatMore(q: seq<seq<Byte>>, x: seq<Byte>)
    ensures Concat(q + [x]) == Concat(q) + x
  {
    assert (q + [x])[..|q|] == q;
  }

  lemma {:induction false} ConcatFirst(q: seq<seq<Byte>>)
    requires q != []
    ensures Concat(q) == q[0] + Concat(q[1..])
  {
    if |q| > 1 {
      ConcatFirst(q[..|q| - 1]);
      assert q[..|q| - 1][1..] == q[1..][..|q| - 2];
    } else {
      assert q[..0] == [] && q[1..] == [];
    }
  }

  // A stream that both sides write to.
  class Writer {
    var sent: seq<Byte>
    ghost var frames: seq<Frame>

    constructor ()
      ensures sent == [] && frames == []
    {
      sent, frames := [], [];
    }

    // One frame for one write.  A failed write may leave a part of the frame.
    method Write(p: seq<Byte>, isClient: bool) returns (n: nat, failed: bool)
      requires sent == Encode(frames)
      modifies this
      ensures frames == old(frames) + [Frame(isClient, p)]
      ensures if failed then sent <= Encode(frames) else sent == Encode(frames) && n == |p|
    {
      n := |p|;
      var wb := FramePut([], |p|, isClient);
      wb := wb + p;
      ghost var f := Frame(isClient, p);
      EncodeMore(frames, f);
      failed := false;
      var i: nat := |wb|;
      if * {
        failed := true;
        i :| i <= |wb|;
      }
      sent := sent + wb[..i];
      frames := frames + [f];
      assert wb == EncodeFrame(f) && wb[..|wb|] == wb;
    }
  }

  lemma {:induction false} EncodeMore(fs: seq<Frame>, f: Frame)
    ensures Encode(fs + [f]) == Encode(fs) + EncodeFrame(f)
  {
    hide EncodeFrame;
    if fs == [] {
      assert fs + [f] == [f] && [f][1..] == [];
    } else {
      assert (fs + [f])[1..] == fs[1..] + [f];
      EncodeMore(fs[1..], f);
    }
  }

  class Server {
    // Frames handed over and not yet read, and what is left of one, by side.
    var rx: seq<seq<seq<Byte>>>
    var overflow: seq<seq<Byte>>

    // Bytes that came in and are not part of a whole frame yet.
    var b: seq<Byte>

    // All bytes that came in, and all that was read, by side.
    ghost var fed: seq<Byte>
    ghost var got: seq<seq<Byte>>

    // Nothing is lost, doubled, moved to the other side or out of order: what the
    // client wrote goes to side 0, what the server wrote to side 1.
    ghost predicate Valid()
      reads this
    {
      && |rx| == |overflow| == |got| == 2
      && b == fed[Consumed(fed)..]
      && (forall k :: 0 <= k < 2 ==> got[k] + overflow[k] + Concat(rx[k]) == Payloads(Parse(fed), k == 0))
    }

    constructor ()
      ensures Valid() && fed == [] && got == [[], []]
    {
      rx, overflow, b, fed, got := [[], []], [[], []], [], [], [[], []];
      EncodeEmpty();
    }

    method Deliver(k: nat, x: seq<Byte>)
      requires |rx| == 2 && k < 2
      modifies this`rx
      ensures |rx| == 2 && forall i :: 0 <= i < 2 ==> Concat(rx[i]) == Concat(old(rx)[i]) + if i == k then x else []
    {
      ConcatMore(rx[k], x);
      rx := rx[k := rx[k] + [x]];
    }

    // Hands over the whole frames at the start of buf, each one when the next has
    // been looked at; empty ones are dropped.  A header whose frame length wraps
    // around passes for a whole frame, and the next look at buf is a panic.
    method Input(buf: seq<Byte>) returns (n: int, panicked: bool)
      requires |rx| == 2 && |buf| < INT_LIMIT - 10
      modifies this`rx
      ensures panicked <==> MeetsWrap(buf)
      ensures !panicked ==> n == Consumed(buf)
      ensures |rx| == 2 && Concat(rx[0]) == Concat(old(rx)[0]) + Payloads(Parse(buf), true)
      ensures Concat(rx[1]) == Concat(old(rx)[1]) + Payloads(Parse(buf), false)
    {
      hide ParsedTo, HandedOver, Parse, Consumed, FrameGet, Payloads, Concat, Whole, Wraps;
      var lastContentLen: nat, lastSide: nat, nLeft: int := 0, 0, |buf|;
      n := 0;
      ghost var at: nat, out: seq<Frame> := 0, [];
      InputStart(buf, rx);
      while true
        invariant n >= 0 ==> n == at && n + nLeft == |buf| && lastContentLen <= n && lastSide < 2
        invariant |rx| == 2 && at <= |buf| && ParsedTo(buf, at, out)
        invariant if n >= 0 then HandedOver(old(rx), rx, out, lastSide, buf[at - lastContentLen..at])
                  else HandedOver(old(rx), rx, out, 0, []) && Wraps(buf[at..])
        invariant n < 0 || lastContentLen <= at
        decreases |buf| - at, if n < 0 then 0 else 1
      {
        if n < 0 {
          InputWraps(buf, at, old(rx), rx, out);
          return n, true;
        }
        var (frameIsClient, contentLen, headerLen) := FrameGet(buf[n..]);
        HeaderBound(buf[n..]);
        var frameLen := ToInt(contentLen + headerLen);
        var frameValid := headerLen > 0 && nLeft >= frameLen;
        ghost var q := rx;
        if lastContentLen > 0 {
          Deliver(lastSide, buf[n - lastContentLen..n]);
        }
        HandOverLast(old(rx), q, rx, out, lastSide, buf[n - lastContentLen..n]);
        ValidIs(buf[n..], frameValid);
        if !frameValid {
          InputEnd(buf, n, old(rx), rx, out);
          return n, false;
        }
        if frameLen >= 0 {
          ghost var f := Frame(frameIsClient, buf[n + headerLen..n + frameLen]);
          ParseStep(buf, n, out);
          HandOverOne(old(rx), rx, out, f);
          out := out + [f];
          at := at + frameLen;
        }
        lastContentLen := contentLen;
        lastSide := SideOf(frameIsClient);
        n := n + frameLen;
        nLeft := ToInt(nLeft - frameLen);
      }
    }

    // The bytes that came in are joined to those left over before.
    method Serve(chunk: seq<Byte>) returns (panicked: bool)
      requires Valid() && |b| + |chunk| < INT_LIMIT - 10
      modifies this
      ensures panicked <==> MeetsWrap(old(fed) + chunk)
      ensures !panicked ==> Valid() && fed == old(fed) + chunk && got == old(got) && overflow == old(overflow)
    {
      hide Parse, Consumed, Payloads, Concat, Wraps;
      ParseMore(fed, chunk);
      b := b + chunk;
      ghost var buf := b;
      LeftOver(fed, chunk);
      var l;
      l, panicked := Input(b);
      if panicked {
        return;
      }
      b := b[l..];
      PayloadsJoin(Parse(fed), Parse(buf), true);
      PayloadsJoin(Parse(fed), Parse(buf), false);
      fed := fed + chunk;
    }

    // At most len bytes for side k, in order; without any, a reader waits.
    method Read(len: nat, k: nat) returns (p: seq<Byte>, waits: bool)
      requires Valid() && k < 2
      modifies this`rx, this`overflow, this`got
      ensures Valid() && |p| <= len && (waits <==> old(overflow)[k] == [] && old(rx)[k] == [])
      ensures !waits ==> var avail := if old(overflow)[k] != [] then |old(overflow)[k]| else |old(rx)[k][0]|;
                         |p| == if len < avail then len else avail
      ensures got == old(got)[k := old(got)[k] + p] && (waits ==> p == [])
    {
      hide Parse, Consumed, Payloads;
      p, waits := [], false;
      if |overflow[k]| > 0 {
        var n := if len < |overflow[k]| then len else |overflow[k]|;
        p := overflow[k][..n];
        assert overflow[k] == p + overflow[k][n..];
        if |overflow[k]| == n {
          overflow := overflow[k := []];
        } else {
          overflow := overflow[k := overflow[k][n..]];
        }
        got := got[k := got[k] + p];
        return;
      }
      if rx[k] == [] {
        waits := true;
        assert got[k] + p == got[k];
        return;
      }
      var i := rx[k][0];
      ConcatFirst(rx[k]);
      rx := rx[k := rx[k][1..]];
      var n := if len < |i| then len else |i|;
      p := i[..n];
      assert i == p + i[n..];
      if n < |i| {
        overflow := overflow[k := overflow[k] + i[n..]];
      }
      got := got[k := got[k] + p];
    }
  }

  // q' has, by side, all that was in q and what out carries, but for the bytes
  // last for side k that come next.
  ghost predicate HandedOver(q: seq<seq<seq<Byte>>>, q': seq<seq<seq<Byte>>>, out: seq<Frame>, k: nat, last: seq<Byte>) {
    |q| == |q'| == 2 && forall i :: 0 <= i < 2 ==>
                          Concat(q'[i]) + (if i == k then last else []) == Concat(q[i]) + Payloads(out, i == 0)
  }

  lemma HandOverOne(q: seq<seq<seq<Byte>>>, q': seq<seq<seq<Byte>>>, out: seq<Frame>, f: Frame)
    requires HandedOver(q, q', out, 0, [])
    ensures HandedOver(q, q', out + [f], SideOf(f.isClient), f.payload)
  {
    hide Payloads, Concat;
    PayloadsMore(out, f);
    forall i | 0 <= i < 2
      ensures Concat(q'[i]) + (if i == SideOf(f.isClient) then f.payload else []) == Concat(q[i]) + Payloads(out + [f], i == 0)
    {
      assert Concat(q'[i]) + [] == Concat(q'[i]);
    }
  }

  lemma LeftOver(fed: seq<Byte>, chunk: seq<Byte>)
    ensures Consumed(fed[Consumed(fed)..] + chunk) <= |fed[Consumed(fed)..] + chunk|
    ensures Consumed(fed + chunk) == Consumed(fed) + Consumed(fed[Consumed(fed)..] + chunk)
    ensures (fed + chunk)[Consumed(fed + chunk)..] == (fed[Consumed(fed)..] + chunk)[Consumed(fed[Consumed(fed)..] + chunk)..]
  {
    hide Consumed;
    ParseMore(fed, chunk);
  }

  // Whatever part of the stream has come in, in whatever pieces, and whatever was
  // read: the server, side 0, has read a part from the start of what the client
  // wrote, and the client, side 1, of what the server wrote; once all has come in,
  // the rest is there to read.
  lemma Delivery(s: Server, fs: seq<Frame>)
    requires s.Valid() && Sendable(fs) && s.fed <= Encode(fs)
    ensures s.got[0] <= Payloads(fs, true) && s.got[1] <= Payloads(fs, false) && !MeetsWrap(s.fed)
    ensures s.fed == Encode(fs) ==>
              && s.got[0] + s.overflow[0] + Concat(s.rx[0]) == Payloads(fs, true)
              && s.got[1] + s.overflow[1] + Concat(s.rx[1]) == Payloads(fs, false)
  {
    hide Parse, Consumed, Payloads, Concat, Encode;
    ParsePrefix(fs, s.fed);
    var n := |Parse(s.fed)|;
    assert fs == fs[..n] + fs[n..];
    PayloadsJoin(fs[..n], fs[n..], true);
    PayloadsJoin(fs[..n], fs[n..], false);
    assert s.got[0] <= Payloads(fs[..n], true) && s.got[1] <= Payloads(fs[..n], false);
  }

  lemma PayloadsNone()
    ensures Payloads([], true) == [] && Payloads([], false) == []
  {
  }

  lemma PayloadsMore(fs: seq<Frame>, f: Frame)
    ensures Payloads(fs + [f], f.isClient) == Payloads(fs, f.isClient) + f.payload
    ensures Payloads(fs + [f], !f.isClient) == Payloads(fs, !f.isClient)
  {
    assert (fs + [f])[..|fs|] == fs;
  }

  // out are the frames of buf up to byte n.
  ghost predicate ParsedTo(buf: seq<Byte>, n: nat, out: seq<Frame>) {
    n <= |buf| && Parse(buf) == out + Parse(buf[n..]) && Consumed(buf) == n + Consumed(buf[n..])
  }

  lemma InputStart(buf: seq<Byte>, q: seq<seq<seq<Byte>>>)
    requires |q| == 2
    ensures ParsedTo(buf, 0, []) && HandedOver(q, q, [], 0, buf[0..0])
  {
    hide Parse, Consumed;
    assert buf[0..] == buf;
    PayloadsNone();
  }

  lemma HandOverLast(q0: seq<seq<seq<Byte>>>, q: seq<seq<seq<Byte>>>, q': seq<seq<seq<Byte>>>, out: seq<Frame>, k: nat, last: seq<Byte>)
    requires HandedOver(q0, q, out, k, last) && |q'| == 2
    requires if last == [] then q' == q else forall i :: 0 <= i < 2 ==> Concat(q'[i]) == Concat(q[i]) + if i == k then last else []
    ensures HandedOver(q0, q', out, 0, [])
  {
    hide Concat, Payloads;
  }

  lemma InputEnd(buf: seq<Byte>, n: nat, q0: seq<seq<seq<Byte>>>, q: seq<seq<seq<Byte>>>, out: seq<Frame>)
    requires ParsedTo(buf, n, out) && HandedOver(q0, q, out, 0, []) && !Whole(buf[n..]) && !Wraps(buf[n..])
    ensures n == Consumed(buf) && |q0| == |q| == 2 && !MeetsWrap(buf)
    ensures Concat(q[0]) == Concat(q0[0]) + Payloads(Parse(buf), true)
    ensures Concat(q[1]) == Concat(q0[1]) + Payloads(Parse(buf), false)
  {
    hide Whole, FrameGet, Concat, Payloads;
    assert Parse(buf[n..]) == [] && out + [] == out;
  }

  // What a header passes for, when lengths wrap around.
  lemma ValidIs(b: seq<Byte>, valid: bool)
    requires |b| < INT_LIMIT - 10
    requires var (_, l, h) := FrameGet(b); valid <==> h > 0 && |b| >= ToInt(l + h)
    ensures var (_, l, h) := FrameGet(b);
            && (valid <==> Whole(b) || Wraps(b)) && (h > 0 && ToInt(l + h) >= 0 ==> ToInt(l + h) == l + h && (valid <==> Whole(b)))
            && (h > 0 && ToInt(l + h) < 0 ==> Wraps(b) && |b| + ToInt(l + h) < 0)
  {
    hide UvarintFrom;
    HeaderBound(b);
  }

  lemma InputWraps(buf: seq<Byte>, n: nat, q0: seq<seq<seq<Byte>>>, q: seq<seq<seq<Byte>>>, out: seq<Frame>)
    requires n <= |buf| && ParsedTo(buf, n, out) && HandedOver(q0, q, out, 0, []) && Wraps(buf[n..])
    requires |buf| < INT_LIMIT - 10
    ensures n == Consumed(buf) && |q0| == |q| == 2 && MeetsWrap(buf)
    ensures Concat(q[0]) == Concat(q0[0]) + Payloads(Parse(buf), true)
    ensures Concat(q[1]) == Concat(q0[1]) + Payloads(Parse(buf), false)
  {
    hide FrameGet, Concat, Payloads;
    assert !Whole(buf[n..]);
    assert Parse(buf[n..]) == [] && out + [] == out;
  }

  lemma FirstFrame(b: seq<Byte>)
    requires Whole(b)
    ensures var (c, l, h) := FrameGet(b);
            && h > 0 && h + l <= |b| && Parse(b) == [Frame(c, b[h..h + l])] + Parse(b[h + l..])
            && Consumed(b) == h + l + Consumed(b[h + l..])
  {
  }

  lemma ParseStep(buf: seq<Byte>, n: nat, out: seq<Frame>)
    requires ParsedTo(buf, n, out) && Whole(buf[n..])
    ensures var (c, l, h) := FrameGet(buf[n..]);
            n + h + l <= |buf| && h > 0 && ParsedTo(buf, n + h + l, out + [Frame(c, buf[n + h..n + h + l])])
  {
    hide FrameGet, Whole, Parse, Consumed;
    var (c, l, h) := FrameGet(buf[n..]);
    FirstFrame(buf[n..]);
    TailSlices(buf, n, h, h + l);
    assert out + ([Frame(c, buf[n + h..n + h + l])] + Parse(buf[n + h + l..]))
        == out + [Frame(c, buf[n + h..n + h + l])] + Parse(buf[n + h + l..]);
  }

  lemma TailSlices(s: seq<Byte>, n: nat, i: nat, j: nat)
    requires i <= j && n + j <= |s|
    ensures s[n..][i..j] == s[n + i..n + j] && s[n..][j..] == s[n + j..]
  {
    var t := s[n..];
    assert forall k :: 0 <= k < |t| ==> t[k] == s[n + k];
  }
}
