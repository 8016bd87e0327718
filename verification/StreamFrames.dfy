// Frames of two sides in one byte stream: a length that also names the side,
// then the payload.
module StreamFrames {

  type Byte = b: nat | b < 256

  // ---- lengths, seven bits to a byte

  const VARINT_LIMIT: nat := 0x1_0000_0000_0000_0000

  function PutUvarint(v: nat): (s: seq<Byte>)
    ensures |s| > 0
  {
    if v < 128 then [v] else [v % 128 + 128] + PutUvarint(v / 128)
  }

  // The value from byte i on and how many bytes of b were used; 0 when b is too
  // short, negative when the value does not fit 64 bits.
  function UvarintFrom(b: seq<Byte>, i: nat): (r: (nat, int))
    requires i <= |b|
    ensures r.1 <= |b| && (r.1 > 0 ==> r.1 > i)
    decreases |b| - i
  {
    if i == |b| then (0, 0)
    else if b[i] < 128 then
      if i > 9 || (i == 9 && b[i] > 1) then (0, -(i + 1)) else (b[i], i + 1)
    else
      var (x, n) := UvarintFrom(b, i + 1);
      if n <= 0 then (0, n) else (b[i] - 128 + 128 * x, n)
  }

  // What is left of 64 bits after i bytes.
  function Room(i: nat): nat
    requires i <= 9
    decreases 9 - i
  {
    if i == 9 then 2 else 128 * Room(i + 1)
  }

  lemma RoomAtStart()
    ensures Room(0) == VARINT_LIMIT
  {
    assert Room(7) == 0x8000;
    assert Room(5) == 0x2000_0000;
    assert Room(3) == 0x800_0000_0000;
    assert Room(1) == 0x200_0000_0000_0000;
  }

  // Reading back what was put, with anything after it; too short before its end.
  lemma {:induction false} UvarintOfPut(b: seq<Byte>, i: nat, v: nat)
    requires i <= |b| && i <= 9 && v < Room(i)
    ensures i + |PutUvarint(v)| <= |b| && b[i..i + |PutUvarint(v)|] == PutUvarint(v) ==>
              UvarintFrom(b, i) == (v, i + |PutUvarint(v)|)
    ensures |b| - i < |PutUvarint(v)| && b[i..] == PutUvarint(v)[..|b| - i] ==> UvarintFrom(b, i).1 == 0
    decreases v
  {
    var s := PutUvarint(v);
    if v >= 128 && i < |b| && i < 9 {
      UvarintOfPut(b, i + 1, v / 128);
      var t := PutUvarint(v / 128);
      assert s[0] == v % 128 + 128 && s[1..] == t;
      if i + |s| <= |b| && b[i..i + |s|] == s {
        assert b[i] == b[i..i + |s|][0];
        assert b[i + 1..i + |s|] == b[i..i + |s|][1..];
      }
      if |b| - i < |s| && b[i..] == s[..|b| - i] {
        assert b[i] == b[i..][0];
        assert b[i + 1..] == b[i..][1..];
        assert s[..|b| - i][1..] == t[..|b| - (i + 1)];
      }
    } else if i < |b| {
      assert v < 128;
      if i + |s| <= |b| && b[i..i + |s|] == s {
        assert b[i] == b[i..i + |s|][0];
      }
    }
  }

  // More bytes after a complete number do not matter.
  lemma {:induction false} UvarintMore(b: seq<Byte>, c: seq<Byte>, i: nat)
    requires i <= |b|
    ensures UvarintFrom(b, i).1 > 0 ==> UvarintFrom(b + c, i) == UvarintFrom(b, i)
    decreases |b| - i
  {
    if i < |b| {
      assert (b + c)[i] == b[i];
      if b[i] >= 128 {
        UvarintMore(b, c, i + 1);
      }
    }
  }

  // ---- frames

  datatype Frame = Frame(isClient: bool, payload: seq<Byte>)

  function FramePut(b: seq<Byte>, l: nat, isClient: bool): seq<Byte> {
    b + PutUvarint(2 * l + if isClient then 1 else 0)
  }

  // Side, payload length and header length; the last is not positive when there
  // is no header.
  function FrameGet(b: seq<Byte>): (bool, nat, int) {
    var (vi, n) := UvarintFrom(b, 0);
    (vi % 2 == 1, vi / 2, n)
  }

  function EncodeFrame(f: Frame): seq<Byte> {
    FramePut([], |f.payload|, f.isClient) + f.payload
  }

  // On the wire: the first byte is odd for a client's frame, and for a payload of
  // less than 64 bytes it is twice its length, or one more; longer lengths follow
  // in groups of seven bits, the lowest first.
  lemma FrameBytes(f: Frame)
    ensures EncodeFrame(f)[0] % 2 == (if f.isClient then 1 else 0)
    ensures |f.payload| < 64 ==> EncodeFrame(f) == [2 * |f.payload| + if f.isClient then 1 else 0] + f.payload
    ensures |f.payload| == 150 && !f.isClient ==> EncodeFrame(f) == [172, 2] + f.payload
  {
    if |f.payload| == 150 && !f.isClient {
      assert PutUvarint(300) == [300 % 128 + 128] + PutUvarint(300 / 128) && PutUvarint(2) == [2];
    }
  }

  function Encode(fs: seq<Frame>): seq<Byte> {
    if fs == [] then [] else EncodeFrame(fs[0]) + Encode(fs[1..])
  }

  // Lengths are added as signed 64-bit numbers.
  const INT_LIMIT: nat := 0x8000_0000_0000_0000

  function ToInt(x: int): int {
    if x < INT_LIMIT then x else x - VARINT_LIMIT
  }

  // The first header of b announces a frame whose length wraps around.
  predicate Wraps(b: seq<Byte>) {
    var (_, l, n) := FrameGet(b);
    n > 0 && l + n >= INT_LIMIT
  }

  // Reading b comes to such a header, after the whole frames before it.
  predicate MeetsWrap(b: seq<Byte>) {
    Wraps(b[Consumed(b)..])
  }

  // Ten bytes that do.
  lemma WrapExample()
    ensures MeetsWrap([255, 255, 255, 255, 255, 255, 255, 255, 255, 1])
  {
    var b: seq<Byte> := [255, 255, 255, 255, 255, 255, 255, 255, 255, 1];
    assert UvarintFrom(b, 9) == (1, 10);
    assert UvarintFrom(b, 8) == (255, 10);
    assert UvarintFrom(b, 7) == (0x7FFF, 10);
    assert UvarintFrom(b, 6) == (0x3F_FFFF, 10);
    assert UvarintFrom(b, 5) == (0x1FFF_FFFF, 10);
    assert UvarintFrom(b, 4) == (0xF_FFFF_FFFF, 10);
    assert UvarintFrom(b, 3) == (0x7FF_FFFF_FFFF, 10);
    assert UvarintFrom(b, 2) == (0x3_FFFF_FFFF_FFFF, 10);
    assert UvarintFrom(b, 1) == (0x1FF_FFFF_FFFF_FFFF, 10);
    assert UvarintFrom(b, 0) == (0xFFFF_FFFF_FFFF_FFFF, 10);
    assert !Whole(b) && b[0..] == b;
  }

  // Payload and header length of what is read are bounded.
  lemma {:induction false} UvarintBound(b: seq<Byte>, i: nat)
    requires i <= |b|
    ensures UvarintFrom(b, i).1 <= 10 && (UvarintFrom(b, i).1 > 0 && i <= 9 ==> UvarintFrom(b, i).0 < Room(i))
    ensures UvarintFrom(b, i).1 > 0 ==> i <= 9
    decreases |b| - i
  {
    if i < |b| && b[i] >= 128 {
      UvarintBound(b, i + 1);
    } else if i < |b| {
      RoomPositive(i);
    }
  }

  lemma {:induction false} RoomPositive(i: nat)
    ensures i <= 9 ==> Room(i) >= 2 && (i < 9 ==> Room(i) >= 256)
    decreases 9 - i
  {
    if i < 9 {
      RoomPositive(i + 1);
    }
  }

  lemma HeaderBound(b: seq<Byte>)
    ensures FrameGet(b).2 > 0 ==> FrameGet(b).2 <= 10 && FrameGet(b).1 < INT_LIMIT
  {
    hide UvarintFrom, Room;
    UvarintBound(b, 0);
    RoomAtStart();
  }

  // Whether b starts with a whole frame.
  predicate Whole(b: seq<Byte>) {
    var (_, l, n) := FrameGet(b);
    n > 0 && l + n <= |b|
  }

  // All whole frames at the start of b, and how many bytes they take.
  function Parse(b: seq<Byte>): seq<Frame>
    decreases |b|
  {
    if Whole(b) then
      var (c, l, n) := FrameGet(b);
      [Frame(c, b[n..n + l])] + Parse(b[n + l..])
    else []
  }

  function Consumed(b: seq<Byte>): (k: nat)
    ensures k <= |b|
    decreases |b|
  {
    if Whole(b) then
      var (c, l, n) := FrameGet(b);
      n + l + Consumed(b[n + l..])
    else 0
  }

  lemma WholeMore(b: seq<Byte>, c: seq<Byte>)
    requires Whole(b)
    ensures Whole(b + c) && FrameGet(b + c) == FrameGet(b) && FrameGet(b).2 > 0 && FrameGet(b).1 + FrameGet(b).2 <= |b|
  {
    UvarintMore(b, c, 0);
  }

  // Reading on with more bytes continues where the whole frames ended.
  lemma {:induction false} ParseMore(b: seq<Byte>, c: seq<Byte>)
    ensures Parse(b + c) == Parse(b) + Parse(b[Consumed(b)..] + c)
    ensures Consumed(b + c) == Consumed(b) + Consumed(b[Consumed(b)..] + c)
    decreases |b|
  {
    hide FrameGet, Whole, UvarintFrom;
    if Whole(b) {
      WholeMore(b, c);
      var (_, l, n) := FrameGet(b);
      var rest := b[n + l..];
      assert (b + c)[n..n + l] == b[n..n + l] && (b + c)[n + l..] == rest + c;
      ParseMore(rest, c);
      assert b[Consumed(b)..] == rest[Consumed(rest)..];
    } else {
      assert b[Consumed(b)..] + c == b + c;
    }
  }

  ghost predicate Sendable(fs: seq<Frame>) {
    forall i :: 0 <= i < |fs| ==> |EncodeFrame(fs[i])| < INT_LIMIT
  }

  // b starts with the bytes e, or stops in the middle of them.
  ghost predicate Starts(b: seq<Byte>, e: seq<Byte>) {
    |b| >= |e| && b[..|e|] == e
  }

  ghost predicate Stops(b: seq<Byte>, e: seq<Byte>) {
    |b| < |e| && b == e[..|b|]
  }

  lemma HeadWhole(b: seq<Byte>, f: Frame)
    requires |EncodeFrame(f)| < INT_LIMIT && Starts(b, EncodeFrame(f))
    ensures var h := |FramePut([], |f.payload|, f.isClient)|;
            Whole(b) && FrameGet(b) == (f.isClient, |f.payload|, h) && b[h..h + |f.payload|] == f.payload
            && |EncodeFrame(f)| == h + |f.payload|
  {
    hide PutUvarint, UvarintFrom;
    var v := 2 * |f.payload| + if f.isClient then 1 else 0;
    var hd := PutUvarint(v);
    var e := EncodeFrame(f);
    RoomAtStart();
    UvarintOfPut(b, 0, v);
    assert e == hd + f.payload;
    assert b[0..|hd|] == b[..|e|][..|hd|] == hd;
    assert b[|hd|..|hd| + |f.payload|] == b[..|e|][|hd|..];
  }

  lemma HeadPart(b: seq<Byte>, f: Frame)
    requires |EncodeFrame(f)| < INT_LIMIT && Stops(b, EncodeFrame(f))
    ensures !Whole(b) && !Wraps(b)
  {
    hide PutUvarint, UvarintFrom;
    var v := 2 * |f.payload| + if f.isClient then 1 else 0;
    var hd := PutUvarint(v);
    var e := EncodeFrame(f);
    RoomAtStart();
    UvarintOfPut(b, 0, v);
    assert e == hd + f.payload;
    if |b| >= |hd| {
      assert b[0..|hd|] == e[..|hd|] == hd;
    } else {
      assert b[0..] == hd[..|b|];
    }
  }

  lemma ParseHead(b: seq<Byte>, f: Frame)
    requires |EncodeFrame(f)| < INT_LIMIT
    ensures Starts(b, EncodeFrame(f)) ==>
              && Parse(b) == [f] + Parse(b[|EncodeFrame(f)|..])
              && Consumed(b) == |EncodeFrame(f)| + Consumed(b[|EncodeFrame(f)|..])
    ensures Stops(b, EncodeFrame(f)) ==> Parse(b) == [] && Consumed(b) == 0 && !MeetsWrap(b)
  {
    hide FramePut, FrameGet, Whole, EncodeFrame, Wraps;
    assert b[0..] == b;
    if Starts(b, EncodeFrame(f)) {
      HeadWhole(b, f);
    }
    if Stops(b, EncodeFrame(f)) {
      HeadPart(b, f);
    }
  }

  // From any part of a stream of frames that has come in, exactly the frames
  // that are complete are read, and no byte of the next one.
  lemma {:induction false} ParsePrefix(fs: seq<Frame>, b: seq<Byte>)
    requires Sendable(fs) && |b| <= |Encode(fs)| && b == Encode(fs)[..|b|]
    ensures |Parse(b)| <= |fs| && Parse(b) == fs[..|Parse(b)|] && Consumed(b) == |Encode(fs[..|Parse(b)|])|
    ensures |Parse(b)| < |fs| ==> |b| < |Encode(fs[..|Parse(b)| + 1])|
    ensures b == Encode(fs) ==> Parse(b) == fs
    ensures !MeetsWrap(b)
  {
    hide Parse, Consumed, EncodeFrame, Encode, Wraps;
    EncodeEmpty();
    if fs == [] {
      assert b == [];
      assert fs[..0] == [];
    } else {
      var f, e := fs[0], EncodeFrame(fs[0]);
      EncodeStep(fs);
      ParseHead(b, f);
      if |b| >= |e| {
        assert b[..|e|] == Encode(fs)[..|e|] == e;
        var rest := b[|e|..];
        assert rest == Encode(fs[1..])[..|rest|];
        ParsePrefix(fs[1..], rest);
        assert b[Consumed(b)..] == rest[Consumed(rest)..];
        var k := |Parse(rest)|;
        FirstMore(fs, k);
        if k + 1 < |fs| {
          FirstMore(fs, k + 1);
        }
        assert b == Encode(fs) ==> rest == Encode(fs[1..]);
        assert [f] + fs[1..] == fs;
      } else {
        assert b == e[..|b|];
        FirstMore(fs, 0);
        assert fs[1..][..0] == [] && fs[..0] == [];
      }
    }
  }

  lemma EncodeEmpty()
    ensures Encode([]) == [] && Parse([]) == [] && Consumed([]) == 0 && !MeetsWrap([])
  {
    var none: seq<Byte> := [];
    assert none[0..] == none && UvarintFrom(none, 0) == (0, 0);
    assert !Whole([]);
  }

  lemma EncodeStep(fs: seq<Frame>)
    requires fs != []
    ensures Encode(fs) == EncodeFrame(fs[0]) + Encode(fs[1..])
  {
  }

  lemma FirstMore(fs: seq<Frame>, k: nat)
    requires k < |fs|
    ensures fs[..k + 1] == [fs[0]] + fs[1..][..k]
    ensures Encode(fs[..k + 1]) == EncodeFrame(fs[0]) + Encode(fs[1..][..k])
  {
    hide EncodeFrame;
    assert fs[..k + 1][1..] == fs[1..][..k];
  }
}
