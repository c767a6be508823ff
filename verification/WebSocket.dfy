/**
 * WebSocket frames (src/assist_pipeline_bridge.cpp:90-139 and 616-632) against sections 5.2
 * and 5.3 of RFC 6455.
 */
module WebSocket {
  import opened Basics
  import opened Arithmetic

  type Mask = m: Bytes | |m| == 4 witness [0, 0, 0, 0]

  // ---------------------------------------------------------------- operations on the bits of a byte

  /** `0x80 | b` */
  function WithTopBit(b: Byte): Byte { if b < 128 then 128 + b else b }

  /** The low `bits` bits of `a ^ b`. */
  function XorBits(a: nat, b: nat, bits: nat): (x: nat)
    ensures x < Power2(bits)
    decreases bits, a
  {
    if bits == 0 then 0 else 2 * XorBits(a / 2, b / 2, bits - 1) + (a + b) % 2
  }

  function Power2(k: nat): (p: nat)
    ensures p >= 1
  {
    if k == 0 then 1 else 2 * Power2(k - 1)
  }

  lemma PowersOfTwo()
    ensures Power2(8) == 256
  {
    assert Power2(4) == 16;
  }

  /** `a ^ b` */
  function Xor(a: Byte, b: Byte): Byte {
    PowersOfTwo();
    XorBits(a, b, 8)
  }

  lemma Parity(y: nat, a: nat, b: nat)
    ensures var x := 2 * y + (a + b) % 2; x / 2 == y && (x + b) % 2 == a % 2
  {
    var t := (a + b) % 2;
    assert (2 * y + t) / 2 == y;
    assert (t + b) % 2 == a % 2;
  }

  lemma {:induction false} XorBitsTwice(a: nat, b: nat, bits: nat)
    requires a < Power2(bits)
    ensures XorBits(XorBits(a, b, bits), b, bits) == a
  {
    if bits > 0 {
      XorBitsTwice(a / 2, b / 2, bits - 1);
      Parity(XorBits(a / 2, b / 2, bits - 1), a, b);
    }
  }

  lemma XorTwice(a: Byte, b: Byte)
    ensures Xor(Xor(a, b), b) == a
  {
    PowersOfTwo();
    XorBitsTwice(a, b, 8);
  }

  // ---------------------------------------------------------------- the writer

  function LengthBytes(size: nat): Bytes {
    if size <= 125 then [WithTopBit(size)]
    else if size <= 65535 then [WithTopBit(126)] + BigEndian(size, 2)
    else [WithTopBit(127)] + BigEndian(size, 8)
  }

  function Masked(payload: Bytes, mask: Mask): (r: Bytes)
    ensures |r| == |payload|
  {
    if payload == [] then []
    else
      var last := |payload| - 1;
      Masked(payload[..last], mask) + [Xor(payload[last], mask[last % 4])]
  }

  function FrameHead(opcode: Byte, size: nat): Bytes { [WithTopBit(opcode)] + LengthBytes(size) }

  function Frame(opcode: Byte, payload: Bytes, mask: Mask): Bytes {
    FrameHead(opcode, |payload|) + mask + Masked(payload, mask)
  }

  /** The TLS session: `sent` is what it took, `room` how much more it takes before it fails;
      `random(k)` is the outcome of the k-th draw of the random generator. */
  class Session {
    const random: nat -> Option<Mask>
    var draws: nat
    var room: nat
    var sent: Bytes

    constructor (random: nat -> Option<Mask>, room: nat)
      ensures this.random == random && this.room == room && draws == 0 && sent == []
    {
      this.random, this.room, draws, sent := random, room, 0, [];
    }

    method WriteAll(data: Bytes) returns (ok: bool)
      modifies this`room, this`sent
      ensures ok == (|data| <= old(room))
      ensures sent == old(sent) + (if ok then data else data[..old(room)])
      ensures room == if ok then old(room) - |data| else 0
    {
      var taken := if |data| <= room then |data| else room;
      sent := sent + data[..taken];
      room := room - taken;
      ok := taken == |data|;
      assert ok ==> data[..taken] == data;
    }

    method SendFrame(opcode: Byte, payload: Bytes) returns (ok: bool)
      modifies this
      ensures draws == old(draws) + 1
      ensures match random(old(draws))
              case None => !ok && sent == old(sent) && room == old(room)
              case Some(mask) =>
                var frame := Frame(opcode, payload, mask);
                ok == (|frame| <= old(room)) &&
                sent == old(sent) + (if ok then frame else frame[..old(room)]) &&
                room == if ok then old(room) - |frame| else 0
    {
      var frame := BuildHead(opcode, |payload|);
      var mask := random(draws);
      draws := draws + 1;
      if mask == None {
        return false;
      }
      frame := frame + mask.value;
      var masked := MaskPayload(payload, mask.value);
      frame := frame + masked;
      ok := WriteAll(frame);
    }
  }

  // ---------------------------------------------------------------- the audio upload

  const CHUNK := 1024
  const BINARY: Byte := 2

  const UPLOAD_ERROR := "Błąd wysyłania audio do pipeline"
  const FINISH_ERROR := "Nie można zakończyć audio pipeline"

  /** The payloads of the upload: the audio in chunks behind the handler byte, then that byte
      alone. */
  function Payloads(audio: Bytes, handler: Byte): (ps: seq<Bytes>)
    ensures |ps| >= 1
  {
    if audio == [] then [[handler]]
    else
      var n := Min(CHUNK, |audio|);
      [[handler] + audio[..n]] + Payloads(audio[n..], handler)
  }

  /** The frames of the payloads, one behind the other. */
  function Stream(opcode: Byte, payloads: seq<Bytes>, masks: seq<Mask>): Bytes
    requires |masks| == |payloads|
  {
    if payloads == [] then []
    else Frame(opcode, payloads[0], masks[0]) + Stream(opcode, payloads[1..], masks[1..])
  }

  /** Why a send failed: the generator or the session gave up. */
  ghost predicate GaveUp(session: Session)
    reads session
  {
    session.room == 0 || (session.draws > 0 && session.random(session.draws - 1) == None)
  }

  /** What a failed send of a payload leaves on the wire: less than its frame. */
  ghost predicate IsCut(cut: Bytes, payload: Bytes) {
    exists mask: Mask :: cut < Frame(BINARY, payload, mask)
  }

  /** Send one payload behind those already sent. */
  method SendNext(session: Session, payload: Bytes, ghost base: Bytes, ghost done: seq<Bytes>, ghost masks: seq<Mask>)
    returns (ok: bool, ghost mask: Mask, ghost cut: Bytes)
    requires |masks| == |done| && session.sent == base + Stream(BINARY, done, masks)
    modifies session
    ensures ok ==> session.sent == base + Stream(BINARY, done + [payload], masks + [mask])
    ensures !ok ==> session.sent == base + Stream(BINARY, done, masks) + cut && IsCut(cut, payload)
    ensures !ok ==> GaveUp(session)
    ensures session.draws == old(session.draws) + 1
  {
    ghost var draw, room := session.draws, session.room;
    ghost var before := Stream(BINARY, done, masks);
    ok := session.SendFrame(BINARY, payload);
    mask := if session.random(draw).Some? then session.random(draw).value else [0, 0, 0, 0];
    ghost var frame := Frame(BINARY, payload, mask);
    cut := if ok || session.random(draw) == None then [] else frame[..room];
    if ok {
      StreamAppend(BINARY, done, masks, payload, mask);
      Regroup(base, before, frame);
    } else {
      assert cut < frame;
    }
  }

  /** The chunks, as far as they can be sent. */
  method SendChunks(session: Session, audio: Bytes, handler: Byte)
    returns (ok: bool, ghost masks: seq<Mask>, ghost cut: Bytes)
    modifies session
    ensures
      var ps := Payloads(audio, handler);
      |masks| < |ps| && session.sent == old(session.sent) + Stream(BINARY, ps[..|masks|], masks) + cut &&
      if ok then |masks| == |ps| - 1 && cut == []
      else |masks| < |ps| - 1 && IsCut(cut, ps[|masks|]) && GaveUp(session)
    ensures session.draws == old(session.draws) + |masks| + (if ok then 0 else 1)
  {
    ghost var ps := Payloads(audio, handler);
    ghost var base := session.sent;
    masks, cut := [], [];
    assert audio[0..] == audio && ps[..0] == [] && ps[0..] == ps;
    var offset := 0;
    while offset < |audio|
      invariant 0 <= offset && |masks| < |ps|
      invariant ps[|masks|..] == Payloads(audio[Min(offset, |audio|)..], handler)
      invariant session.sent == base + Stream(BINARY, ps[..|masks|], masks)
      invariant session.draws == old(session.draws) + |masks|
      decreases |audio| - offset
    {
      var chunk := Min(CHUNK, |audio| - offset);
      var payload := [handler] + audio[offset..offset + chunk];
      NextPayload(audio, offset, handler);
      NextOf(ps, |masks|, payload, Payloads(audio[Min(offset + CHUNK, |audio|)..], handler));
      var sent, mask, rest := SendNext(session, payload, base, ps[..|masks|], masks);
      if !sent {
        return false, masks, rest;
      }
      masks := masks + [mask];
      offset := offset + CHUNK;
    }
    assert session.sent + [] == session.sent;
    ok := true;
  }

  /** The frames of the first payloads are sent whole, of the next one less than its frame if a
      send fails; the error text says whether that was the last. */
  method UploadAudio(session: Session, audio: Bytes, handler: Byte)
    returns (error: Option<string>, ghost masks: seq<Mask>, ghost cut: Bytes)
    modifies session
    ensures
      var ps := Payloads(audio, handler);
      |masks| <= |ps| && session.sent == old(session.sent) + Stream(BINARY, ps[..|masks|], masks) + cut
    ensures
      var ps := Payloads(audio, handler);
      match error
      case None => |masks| == |ps| && cut == []
      case Some(text) =>
        |masks| < |ps| && IsCut(cut, ps[|masks|]) && GaveUp(session) &&
        text == if |masks| == |ps| - 1 then "Nie można zakończyć audio pipeline"
                else "Błąd wysyłania audio do pipeline"
    ensures session.draws == old(session.draws) + |masks| + (if error == None then 0 else 1)
  {
    ghost var ps := Payloads(audio, handler);
    ghost var base := session.sent;
    var ok;
    ok, masks, cut := SendChunks(session, audio, handler);
    if !ok {
      return Some(UPLOAD_ERROR), masks, cut;
    }
    PayloadsHoldTheAudio(audio, handler);
    NextOf(ps, |masks|, [handler], []);
    assert session.sent + [] == session.sent;
    var sent, mask, rest := SendNext(session, [handler], base, ps[..|masks|], masks);
    if !sent {
      return Some(FINISH_ERROR), masks, rest;
    }
    assert session.sent + [] == session.sent;
    return None, masks + [mask], [];
  }

  lemma NextOf<T>(all: seq<T>, n: nat, next: T, later: seq<T>)
    requires n <= |all| && all[n..] == [next] + later
    ensures |all| == n + 1 + |later| && all[n] == next && all[n + 1..] == later && all[..n + 1] == all[..n] + [next]
  {
    assert all[n] == all[n..][0];
    assert all[n + 1..] == all[n..][1..];
  }

  lemma NextPayload(audio: Bytes, offset: nat, handler: Byte)
    requires offset < |audio|
    ensures
      var chunk := Min(CHUNK, |audio| - offset);
      Payloads(audio[offset..], handler) ==
      [[handler] + audio[offset..offset + chunk]] + Payloads(audio[Min(offset + CHUNK, |audio|)..], handler)
  {
    var chunk := Min(CHUNK, |audio| - offset);
    assert audio[offset..][..chunk] == audio[offset..offset + chunk];
    assert audio[offset..][chunk..] == audio[Min(offset + CHUNK, |audio|)..];
  }

  lemma {:induction false} StreamAppend(opcode: Byte, payloads: seq<Bytes>, masks: seq<Mask>, payload: Bytes, mask: Mask)
    requires |masks| == |payloads|
    ensures Stream(opcode, payloads + [payload], masks + [mask])
         == Stream(opcode, payloads, masks) + Frame(opcode, payload, mask)
    decreases |payloads|
  {
    var ps, ms := payloads + [payload], masks + [mask];
    if payloads == [] {
      assert Stream(opcode, ps[1..], ms[1..]) == [];
      assert ps[0] == payload && ms[0] == mask;
    } else {
      StreamAppend(opcode, payloads[1..], masks[1..], payload, mask);
      assert ps[1..] == payloads[1..] + [payload] && ms[1..] == masks[1..] + [mask];
      Regroup(Frame(opcode, payloads[0], masks[0]), Stream(opcode, payloads[1..], masks[1..]),
        Frame(opcode, payload, mask));
    }
  }

  method BuildHead(opcode: Byte, size: nat) returns (frame: Bytes)
    ensures frame == FrameHead(opcode, size)
  {
    frame := [WithTopBit(opcode)];
    if size <= 125 {
      frame := frame + [WithTopBit(size)];
    } else if size <= 65535 {
      TwoBytes(size);
      frame := frame + [WithTopBit(126)];
      frame := frame + [(size / 256) % 256];
      frame := frame + [size % 256];
    } else {
      frame := frame + [WithTopBit(127)];
      var extended: Bytes := [];
      var shift := 56;
      while shift >= 0
        invariant -8 <= shift <= 56 && shift % 8 == 0
        invariant |extended| == 7 - shift / 8
        invariant forall k :: 0 <= k < |extended| ==> extended[k] == BigEndian(size, 8)[k]
      {
        BigEndianAt(size, 8, 7 - shift / 8);
        extended := extended + [(size / Power256(shift / 8)) % 256];
        shift := shift - 8;
      }
      assert extended == BigEndian(size, 8);
      frame := frame + extended;
    }
  }

  method MaskPayload(payload: Bytes, mask: Mask) returns (masked: Bytes)
    ensures masked == Masked(payload, mask)
  {
    masked := [];
    for i := 0 to |payload|
      invariant masked == Masked(payload[..i], mask)
    {
      assert payload[..i + 1][..i] == payload[..i];
      masked := masked + [Xor(payload[i], mask[i % 4])];
    }
    assert payload[..|payload|] == payload;
  }

  // ---------------------------------------------------------------- the standard's reading of a frame

  datatype WsFrame = WsFrame(fin: bool, reserved: nat, opcode: Byte, masked: bool, payload: Bytes)

  const LENGTH_LIMIT := 0x8000_0000_0000_0000

  /** Section 5.2: how many bytes the length takes behind the first two, and the length, which
      must be in its shortest form. */
  function DeclaredLength(bytes: Bytes): (r: Option<(nat, nat)>)
    requires |bytes| >= 2
    ensures r.Some? ==> 2 + r.value.0 <= |bytes|
  {
    var short := bytes[1] % 128;
    if short <= 125 then Some((0, short))
    else if short == 126 then
      if |bytes| < 4 || FromBigEndian(bytes[2..4]) <= 125 then None
      else Some((2, FromBigEndian(bytes[2..4])))
    else if |bytes| < 10 || !(65535 < FromBigEndian(bytes[2..10]) < LENGTH_LIMIT) then None
    else Some((8, FromBigEndian(bytes[2..10])))
  }

  /** The frame whose header without the mask takes `start` bytes and declares `length`, and
      what follows it. */
  function DecodeBody(bytes: Bytes, start: nat, length: nat): (r: Option<(WsFrame, Bytes)>)
    requires 2 <= start <= |bytes|
    ensures r.Some? ==> |r.value.1| < |bytes|
  {
    var masked := bytes[1] >= 128;
    var rest := bytes[start..];
    if |rest| < length + (if masked then 4 else 0) then None
    else
      var data := if masked then rest[4..][..length] else rest[..length];
      var payload := if masked then Masked(data, rest[..4]) else data;
      Some((WsFrame(bytes[0] >= 128, bytes[0] / 16 % 8, bytes[0] % 16, masked, payload),
            if masked then rest[4..][length..] else rest[length..]))
  }

  /** The first frame of a stream and what follows it. */
  function Decode(bytes: Bytes): (r: Option<(WsFrame, Bytes)>)
    ensures r.Some? ==> |r.value.1| < |bytes|
  {
    if |bytes| < 2 then None
    else
      match DeclaredLength(bytes)
      case None => None
      case Some((extra, length)) => DecodeBody(bytes, 2 + extra, length)
  }

  lemma {:induction false} UnmaskMasked(payload: Bytes, mask: Mask)
    ensures Masked(Masked(payload, mask), mask) == payload
  {
    if payload != [] {
      var last := |payload| - 1;
      var once := Masked(payload, mask);
      UnmaskMasked(payload[..last], mask);
      assert once[..last] == Masked(payload[..last], mask);
      XorTwice(payload[last], mask[last % 4]);
      assert payload == payload[..last] + [payload[last]];
    }
  }

  lemma MediumLength(bytes: Bytes, size: nat)
    requires |bytes| >= 4 && bytes[1] % 128 == 126 && bytes[2..4] == BigEndian(size, 2)
    requires 125 < size <= 65535
    ensures DeclaredLength(bytes) == Some((2, size))
  {
    TwoBytes(size);
  }

  lemma LongLength(bytes: Bytes, size: nat)
    requires |bytes| >= 10 && bytes[1] % 128 == 127 && bytes[2..10] == BigEndian(size, 8)
    requires 65535 < size < LENGTH_LIMIT
    ensures DeclaredLength(bytes) == Some((8, size))
  {
    EightBytes(size);
  }

  /** The length written is the length read, in its shortest form. */
  lemma LengthReadsBack(opcode: Byte, size: nat, rest: Bytes)
    requires size < LENGTH_LIMIT
    ensures
      var head := FrameHead(opcode, size);
      |head| >= 2 && head[0] == WithTopBit(opcode) && head[1] >= 128 &&
      DeclaredLength(head + rest) == Some((|head| - 2, size))
  {
    var head := FrameHead(opcode, size);
    var bytes := head + rest;
    assert head[1] == LengthBytes(size)[0] && bytes[1] == head[1];
    if 125 < size <= 65535 {
      assert bytes[2..4] == BigEndian(size, 2);
      MediumLength(bytes, size);
    } else if size > 65535 {
      assert bytes[2..10] == BigEndian(size, 8);
      LongLength(bytes, size);
    }
  }

  lemma BodySlices(head: Bytes, mask: Mask, data: Bytes, rest: Bytes)
    ensures
      var tail := mask + (data + rest);
      (head + tail)[|head|..] == tail && tail[..4] == mask && tail[4..] == data + rest &&
      (data + rest)[..|data|] == data && (data + rest)[|data|..] == rest
  {}

  /** Decoding a masked frame from its parts. */
  lemma DecodeParts(head: Bytes, mask: Mask, payload: Bytes, rest: Bytes)
    requires |head| >= 2 && head[1] >= 128
    ensures DecodeBody(head + (mask + (Masked(payload, mask) + rest)), |head|, |payload|) ==
            Some((WsFrame(head[0] >= 128, head[0] / 16 % 8, head[0] % 16, true, payload), rest))
  {
    BodySlices(head, mask, Masked(payload, mask), rest);
    UnmaskMasked(payload, mask);
  }

  lemma DecodeWith(bytes: Bytes, extra: nat, length: nat)
    requires |bytes| >= 2 && DeclaredLength(bytes) == Some((extra, length))
    ensures Decode(bytes) == DecodeBody(bytes, 2 + extra, length)
  {}

  lemma HeadDecodes(head: Bytes, mask: Mask, payload: Bytes, rest: Bytes)
    requires |head| >= 2 && head[1] >= 128
    requires DeclaredLength(head + (mask + (Masked(payload, mask) + rest))) == Some((|head| - 2, |payload|))
    ensures Decode(head + mask + Masked(payload, mask) + rest) ==
            Some((WsFrame(head[0] >= 128, head[0] / 16 % 8, head[0] % 16, true, payload), rest))
  {
    DecodeWith(head + (mask + (Masked(payload, mask) + rest)), |head| - 2, |payload|);
    DecodeParts(head, mask, payload, rest);
    RegroupFour(head, mask, Masked(payload, mask), rest);
  }

  /** Every frame the writer builds decodes to its opcode and payload, final and masked, and
      the bytes behind it are left. */
  lemma FrameDecodes(opcode: Byte, payload: Bytes, mask: Mask, rest: Bytes)
    requires opcode < 16 && |payload| < LENGTH_LIMIT
    ensures Decode(Frame(opcode, payload, mask) + rest) ==
            Some((WsFrame(true, 0, opcode, true, payload), rest))
  {
    LengthReadsBack(opcode, |payload|, mask + (Masked(payload, mask) + rest));
    HeadDecodes(FrameHead(opcode, |payload|), mask, payload, rest);
    OpcodeReadsBack(opcode);
  }

  lemma OpcodeReadsBack(opcode: Byte)
    requires opcode < 16
    ensures WithTopBit(opcode) >= 128 && WithTopBit(opcode) / 16 % 8 == 0 && WithTopBit(opcode) % 16 == opcode
  {}

  lemma RegroupFour(a: Bytes, b: Bytes, c: Bytes, d: Bytes)
    ensures a + b + c + d == a + (b + (c + d))
  {}

  /** All frames of a stream, if it is made of whole frames. */
  function DecodeAll(bytes: Bytes): Option<seq<WsFrame>>
    decreases |bytes|
  {
    if bytes == [] then Some([])
    else
      match Decode(bytes)
      case None => None
      case Some((frame, rest)) =>
        match DecodeAll(rest)
        case None => None
        case Some(later) => Some([frame] + later)
  }

  function Sent(opcode: Byte, payloads: seq<Bytes>): (frames: seq<WsFrame>)
    ensures |frames| == |payloads|
    ensures forall i :: 0 <= i < |frames| ==> frames[i] == WsFrame(true, 0, opcode, true, payloads[i])
  {
    if payloads == [] then []
    else [WsFrame(true, 0, opcode, true, payloads[0])] + Sent(opcode, payloads[1..])
  }

  lemma {:induction false} StreamDecodes(opcode: Byte, payloads: seq<Bytes>, masks: seq<Mask>)
    requires opcode < 16 && |masks| == |payloads|
    requires forall i :: 0 <= i < |payloads| ==> |payloads[i]| < LENGTH_LIMIT
    ensures DecodeAll(Stream(opcode, payloads, masks)) == Some(Sent(opcode, payloads))
    decreases |payloads|
  {
    if payloads != [] {
      StreamDecodes(opcode, payloads[1..], masks[1..]);
      FrameDecodes(opcode, payloads[0], masks[0], Stream(opcode, payloads[1..], masks[1..]));
    }
  }

  /** The audio in a list of payloads, their first byte dropped. */
  function AudioOf(payloads: seq<Bytes>): Bytes {
    if payloads == [] then []
    else (if payloads[0] == [] then [] else payloads[0][1..]) + AudioOf(payloads[1..])
  }

  lemma PayloadsHoldTheAudio(audio: Bytes, handler: Byte)
    ensures
      var ps := Payloads(audio, handler);
      AudioOf(ps) == audio && ps[|ps| - 1] == [handler] &&
      (forall i :: 0 <= i < |ps| - 1 ==> ps[i] != [] && ps[i][0] == handler && 1 <= |ps[i]| - 1 <= 1024) &&
      (forall i :: 0 <= i < |ps| - 2 ==> |ps[i]| - 1 == 1024)
  {
    PayloadsJoin(audio, handler);
    PayloadsAreChunks(audio, handler);
  }

  lemma {:induction false} PayloadsJoin(audio: Bytes, handler: Byte)
    ensures AudioOf(Payloads(audio, handler)) == audio
    decreases |audio|
  {
    var ps := Payloads(audio, handler);
    if audio == [] {
      assert AudioOf(ps[1..]) == [];
    } else {
      var n := Min(CHUNK, |audio|);
      PayloadsJoin(audio[n..], handler);
      assert ps[1..] == Payloads(audio[n..], handler);
      assert ps[0][1..] == audio[..n];
      assert audio == audio[..n] + audio[n..];
    }
  }

  predicate IsChunk(payload: Bytes, handler: Byte) {
    payload != [] && payload[0] == handler && 1 <= |payload| - 1 <= 1024
  }

  lemma {:induction false} PayloadsAreChunks(audio: Bytes, handler: Byte)
    ensures
      var ps := Payloads(audio, handler);
      ps[|ps| - 1] == [handler] && (|ps| == 1 <==> audio == []) &&
      (forall i :: 0 <= i < |ps| - 1 ==> IsChunk(ps[i], handler)) &&
      (forall i :: 0 <= i < |ps| - 2 ==> |ps[i]| == 1025)
    decreases |audio|
  {
    if audio != [] {
      var n := Min(CHUNK, |audio|);
      var ps, first, later := Payloads(audio, handler), [handler] + audio[..n], Payloads(audio[n..], handler);
      PayloadsAreChunks(audio[n..], handler);
      assert ps == [first] + later;
      assert IsChunk(first, handler) && (audio[n..] != [] ==> |first| == 1025);
      assert forall i :: 1 <= i < |ps| ==> ps[i] == later[i - 1];
    }
  }

  /** What the server decodes from a completed upload: binary frames that hold the whole audio
      behind the handler byte, in chunks of 1 to 1024 bytes, and a lone handler byte last. */
  lemma UploadDecodes(audio: Bytes, handler: Byte, masks: seq<Mask>)
    requires |masks| == |Payloads(audio, handler)|
    ensures
      var ps := Payloads(audio, handler);
      DecodeAll(Stream(BINARY, ps, masks)) == Some(Sent(2, ps)) &&
      AudioOf(ps) == audio && ps[|ps| - 1] == [handler] &&
      (forall i :: 0 <= i < |ps| - 1 ==> ps[i] != [] && ps[i][0] == handler && 1 <= |ps[i]| - 1 <= 1024) &&
      (forall i :: 0 <= i < |ps| - 2 ==> |ps[i]| - 1 == 1024)
  {
    PayloadsHoldTheAudio(audio, handler);
    var ps := Payloads(audio, handler);
    assert ps[|ps| - 1] == [handler];
    forall i | 0 <= i < |ps|
      ensures |ps[i]| < LENGTH_LIMIT
    {
      if i < |ps| - 1 {
        assert |ps[i]| - 1 <= 1024;
      }
    }
    StreamDecodes(BINARY, ps, masks);
  }

  // ---------------------------------------------------------------- the reader

  const PAYLOAD_LIMIT := 1024 * 1024

  /** What the server sent and the client has not read yet. */
  class Receiver {
    var incoming: Bytes

    constructor (incoming: Bytes)
      ensures this.incoming == incoming
    {
      this.incoming := incoming;
    }

    method ReadAll(size: nat) returns (data: Option<Bytes>)
      modifies this
      ensures if size <= |old(incoming)|
              then data == Some(old(incoming)[..size]) && incoming == old(incoming)[size..]
              else data == None && incoming == []
    {
      if size <= |incoming| {
        data := Some(incoming[..size]);
        incoming := incoming[size..];
      } else {
        data := None;
        incoming := [];
      }
    }

    method ReadWsFrame() returns (r: Option<(Byte, Bytes)>)
      modifies this
      ensures (r, incoming) == ReadFrame(old(incoming))
    {
      var header := ReadAll(2);
      if header == None {
        return None;
      }
      var opcode := header.value[0] % 16;
      var size := header.value[1] % 128;
      if size == 126 {
        var extended := ReadAll(2);
        if extended == None {
          return None;
        }
        assert extended.value == old(incoming)[2..][..2];
        FromTwoBytes(extended.value[0], extended.value[1]);
        assert extended.value == [extended.value[0], extended.value[1]];
        var high: nat := extended.value[0];
        size := high * 256 + extended.value[1];
      } else if size == 127 {
        var extended := ReadAll(8);
        if extended == None {
          return None;
        }
        size := 0;
        for i := 0 to 8
          invariant size == FromBigEndian(extended.value[..i])
        {
          assert extended.value[..i + 1][..i] == extended.value[..i];
          size := size * 256 + extended.value[i];
        }
        assert extended.value[..8] == extended.value;
      }
      if size > PAYLOAD_LIMIT {
        return None;
      }
      if size == 0 {
        return Some((opcode, []));
      }
      var payload := ReadAll(size);
      if payload == None {
        return None;
      }
      return Some((opcode, payload.value));
    }
  }

  /** How many bytes of length follow the first two, by the low bits of the second. */
  function ExtraLength(short: nat): nat {
    if short == 126 then 2 else if short == 127 then 8 else 0
  }

  /** What a read returns, and what it leaves unread. */
  function ReadFrame(bytes: Bytes): (Option<(Byte, Bytes)>, Bytes) {
    if |bytes| < 2 then (None, [])
    else
      var short := bytes[1] % 128;
      var extra := ExtraLength(short);
      if |bytes[2..]| < extra then (None, [])
      else
        var size := if extra == 0 then short else FromBigEndian(bytes[2..][..extra]);
        var rest := bytes[2..][extra..];
        if size > PAYLOAD_LIMIT then (None, rest)
        else if |rest| < size then (None, [])
        else (Some((bytes[0] % 16, rest[..size])), rest[size..])
  }

  /** The three length forms of section 5.2; a longer form than needed is read as well. */
  datatype Form = Short | Medium | Long

  predicate Fits(size: nat, form: Form) {
    match form
    case Short => size <= 125
    case Medium => size <= 65535
    case Long => size < LENGTH_LIMIT
  }

  /** An unmasked frame whose first byte is `first`. */
  function Unmasked(first: Byte, payload: Bytes, form: Form): Bytes
    requires Fits(|payload|, form)
  {
    Header(first, |payload|, form) + payload
  }

  function Header(first: Byte, size: nat, form: Form): Bytes
    requires Fits(size, form)
  {
    match form
    case Short => [first, size]
    case Medium => [first, 126] + BigEndian(size, 2)
    case Long => [first, 127] + BigEndian(size, 8)
  }

  lemma HeaderReads(first: Byte, size: nat, form: Form, rest: Bytes)
    requires Fits(size, form)
    ensures
      var bytes := Header(first, size, form) + rest;
      |bytes| >= 2 && bytes[0] == first &&
      var short := bytes[1] % 128;
      var extra := ExtraLength(short);
      |bytes[2..]| >= extra && bytes[2..][extra..] == rest &&
      size == if extra == 0 then short else FromBigEndian(bytes[2..][..extra])
  {
    var bytes := Header(first, size, form) + rest;
    match form
    case Short =>
      assert bytes[2..][0..] == rest;
    case Medium =>
      TwoBytes(size);
      assert bytes[2..][..2] == BigEndian(size, 2) && bytes[2..][2..] == rest;
    case Long =>
      EightBytes(size);
      assert bytes[2..][..8] == BigEndian(size, 8) && bytes[2..][8..] == rest;
  }

  /** What the reader makes of any header and what follows it. */
  lemma ReadBehindHeader(first: Byte, size: nat, form: Form, rest: Bytes)
    requires Fits(size, form)
    ensures ReadFrame(Header(first, size, form) + rest) ==
      if size > 1048576 then (None, rest)
      else if |rest| < size then (None, [])
      else (Some((first % 16, rest[..size])), rest[size..])
  {
    HeaderReads(first, size, form, rest);
  }

  /** The reader inverts the standard's unmasked encoding in all three forms, and takes exactly
      the frame from the stream. */
  lemma ReadInvertsUnmasked(first: Byte, payload: Bytes, form: Form, rest: Bytes)
    requires |payload| <= 1048576 && Fits(|payload|, form)
    ensures ReadFrame(Unmasked(first, payload, form) + rest) == (Some((first % 16, payload)), rest)
  {
    ReadBehindHeader(first, |payload|, form, payload + rest);
    Regroup(Header(first, |payload|, form), payload, rest);
    assert (payload + rest)[..|payload|] == payload && (payload + rest)[|payload|..] == rest;
  }

  /** A declared size above the limit is refused before any payload byte is read. */
  lemma OversizeIsRefused(first: Byte, size: nat, form: Form, rest: Bytes)
    requires size > 1048576 && Fits(size, form)
    ensures ReadFrame(Header(first, size, form) + rest) == (None, rest)
  {
    ReadBehindHeader(first, size, form, rest);
  }

  datatype Message = Message(first: Byte, payload: Bytes, form: Form)

  predicate Readable(m: Message) {
    |m.payload| <= PAYLOAD_LIMIT && Fits(|m.payload|, m.form)
  }

  type ReadableMessage = m: Message | Readable(m) witness Message(0, [], Short)

  function Wire(messages: seq<ReadableMessage>): Bytes {
    if messages == [] then []
    else Unmasked(messages[0].first, messages[0].payload, messages[0].form) + Wire(messages[1..])
  }

  /** The first `n` reads of a stream, and what is left behind them. */
  function ReadMany(bytes: Bytes, n: nat): (seq<Option<(Byte, Bytes)>>, Bytes)
    decreases n
  {
    if n == 0 then ([], bytes)
    else
      var (r, rest) := ReadFrame(bytes);
      var (later, end) := ReadMany(rest, n - 1);
      ([r] + later, end)
  }

  function Contents(messages: seq<ReadableMessage>): seq<Option<(Byte, Bytes)>> {
    if messages == [] then []
    else [Some((messages[0].first % 16, messages[0].payload))] + Contents(messages[1..])
  }

  lemma ReadManyStep(bytes: Bytes, n: nat)
    ensures ReadMany(bytes, n + 1) ==
      ([ReadFrame(bytes).0] + ReadMany(ReadFrame(bytes).1, n).0, ReadMany(ReadFrame(bytes).1, n).1)
  {}

  /** A concatenation of frames is read back in order, each read taking one frame. */
  lemma {:induction false} StreamReadsBack(messages: seq<ReadableMessage>, rest: Bytes)
    ensures ReadMany(Wire(messages) + rest, |messages|) == (Contents(messages), rest)
    decreases |messages|
  {
    if messages == [] {
      assert Wire(messages) + rest == rest;
    } else {
      var m, later := messages[0], messages[1..];
      StreamReadsBack(later, rest);
      FirstMessage(m, Wire(later), rest, |later|);
      assert Wire(messages) == Unmasked(m.first, m.payload, m.form) + Wire(later);
      assert |messages| == |later| + 1;
    }
  }

  lemma FirstMessage(m: ReadableMessage, wire: Bytes, rest: Bytes, n: nat)
    ensures ReadMany(Unmasked(m.first, m.payload, m.form) + wire + rest, n + 1) ==
      ([Some((m.first % 16, m.payload))] + ReadMany(wire + rest, n).0, ReadMany(wire + rest, n).1)
  {
    var frame := Unmasked(m.first, m.payload, m.form);
    ReadInvertsUnmasked(m.first, m.payload, m.form, wire + rest);
    Regroup(frame, wire, rest);
    ReadManyStep(frame + (wire + rest), n);
  }

  /** The mask bit of an incoming frame is not looked at: its mask would be read as payload. */
  lemma MaskBitIsIgnored(first: Byte, second: Byte, rest: Bytes)
    requires second < 128
    ensures ReadFrame([first, second + 128] + rest) == ReadFrame([first, second] + rest)
  {
    var plain, marked := [first, second] + rest, [first, second + 128] + rest;
    assert plain[2..] == rest && marked[2..] == rest;
    assert marked[1] % 128 == plain[1] % 128;
  }

  /** A frame that is cut short anywhere is not read. */
  lemma CutFrameIsNotRead(first: Byte, payload: Bytes, form: Form, k: nat)
    requires |payload| <= 1048576 && Fits(|payload|, form) && k < |Unmasked(first, payload, form)|
    ensures ReadFrame(Unmasked(first, payload, form)[..k]) == (None, [])
  {
    var header := Header(first, |payload|, form);
    var cut := Unmasked(first, payload, form)[..k];
    if k >= |header| {
      assert cut == header + payload[..k - |header|];
      ReadBehindHeader(first, |payload|, form, payload[..k - |header|]);
    } else if k >= 2 {
      assert cut[1] == header[1];
    }
  }

  // ---------------------------------------------------------------- bits and bytes

  /** Bit `k` of a number. */
  function Bit(a: nat, k: nat): nat { a / Power2(k) % 2 }

  lemma {:induction false} XorBitsMean(a: nat, b: nat, bits: nat, k: nat)
    requires k < bits
    ensures Bit(XorBits(a, b, bits), k) == (Bit(a, k) + Bit(b, k)) % 2
  {
    var y, t := XorBits(a / 2, b / 2, bits - 1), (a + b) % 2;
    NextBit(a / 2, a % 2, k);
    NextBit(b / 2, b % 2, k);
    NextBit(y, t, k);
    if k > 0 {
      XorBitsMean(a / 2, b / 2, bits - 1, k - 1);
    }
  }

  lemma NextBit(half: nat, low: nat, k: nat)
    requires low < 2
    ensures Bit(2 * half + low, k) == if k == 0 then low else Bit(half, k - 1)
  {
    var n := 2 * half + low;
    assert n / 2 == half && n % 2 == low;
    if k > 0 {
      DivDiv(n, 2, Power2(k - 1));
    }
  }

  /** Section 5.3: each byte of the masked payload differs from that of the payload in exactly the
      bits that are set in the mask byte of its place, modulo 4. */
  lemma {:induction false} MaskedBits(payload: Bytes, mask: Mask, i: nat, k: nat)
    requires i < |payload| && k < 8
    ensures Bit(Masked(payload, mask)[i], k) == (Bit(payload[i], k) + Bit(mask[i % 4], k)) % 2
  {
    var last := |payload| - 1;
    if i < last {
      MaskedBits(payload[..last], mask, i, k);
    } else {
      XorBitsMean(payload[i], mask[i % 4], 8, k);
    }
  }

  /** Section 5.2: the first bytes of a frame, in the three length forms. */
  lemma HeadBytes(opcode: Byte, size: nat)
    requires opcode < 16 && size < LENGTH_LIMIT
    ensures FrameHead(opcode, size) ==
      if size <= 125 then [0x80 + opcode, 0x80 + size]
      else if size <= 65535 then [0x80 + opcode, 0xFE, size / 256, size % 256]
      else [0x80 + opcode, 0xFF] + BigEndian(size, 8)
  {
    if size <= 65535 {
      TwoBytes(size);
    }
  }

  lemma HeaderBytes(first: Byte, size: nat, form: Form)
    requires Fits(size, form)
    ensures Header(first, size, form) ==
      match form
      case Short => [first, size]
      case Medium => [first, 126, size / 256, size % 256]
      case Long => [first, 127] + BigEndian(size, 8)
  {
    if form == Medium {
      TwoBytes(size);
    }
  }
}
