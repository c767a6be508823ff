/**
 * The MQTT client's packets (src/mqtt_client.cpp): the remaining length of section 2.2.3 and
 * the PUBLISH packet of section 3.3 of MQTT 3.1.1, as this client writes and reads them, and
 * its receive loop under fragmented reads.
 */
module Mqtt {
  import opened Basics
  import opened Arithmetic

  // ---------------------------------------------------------------- the remaining length

  const LIMIT := 128 * 128 * 128

  function EncodeLength(length: nat): (encoded: Bytes)
    ensures encoded != []
  {
    if length < 128 then [length] else [length % 128 + 128] + EncodeLength(length / 128)
  }

  method EncodeRemainingLength(length: nat) returns (encoded: Bytes)
    ensures encoded == EncodeLength(length)
  {
    encoded := [];
    var left := length;
    var more := true;
    while more
      invariant more ==> encoded + EncodeLength(left) == EncodeLength(length)
      invariant !more ==> encoded == EncodeLength(length)
      decreases more, left
    {
      var digit := left % 128;
      ghost var before := left;
      left := left / 128;
      if left > 0 {
        digit := digit + 128;
      }
      ghost var done := encoded;
      encoded := encoded + [digit];
      more := left > 0;
      assert more ==> done + ([digit] + EncodeLength(left)) == encoded + EncodeLength(left);
    }
  }

  /** The decoder's loop on a stream: the length, if it accepts one, and what is left unread. */
  function DecodeFrom(bytes: Bytes, multiplier: nat, value: nat): (Option<nat>, Bytes)
    decreases |bytes|
  {
    if bytes == [] then (None, [])
    else
      var sum := value + bytes[0] % 128 * multiplier;
      if multiplier * 128 > LIMIT then (None, bytes[1..])
      else if bytes[0] >= 128 then DecodeFrom(bytes[1..], multiplier * 128, sum)
      else (Some(sum), bytes[1..])
  }

  function DecodeLength(bytes: Bytes): (Option<nat>, Bytes) { DecodeFrom(bytes, 1, 0) }

  predicate Multiplier(m: nat) { m == 1 || m == 128 || m == 128 * 128 || m == LIMIT }

  lemma {:induction false} DecodeInverts(n: nat, multiplier: nat, value: nat, rest: Bytes)
    requires Multiplier(multiplier)
    ensures
      var (length, unread) := DecodeFrom(EncodeLength(n) + rest, multiplier, value);
      if multiplier < LIMIT && n * multiplier < LIMIT
      then length == Some(value + n * multiplier) && unread == rest
      else length == None
    decreases n
  {
    var bytes := EncodeLength(n) + rest;
    if n < 128 {
      assert bytes[1..] == rest;
    } else {
      assert bytes[0] == n % 128 + 128 && bytes[1..] == EncodeLength(n / 128) + rest;
      if multiplier < LIMIT {
        DecodeInverts(n / 128, multiplier * 128, value + n % 128 * multiplier, rest);
        Digits(n, multiplier);
      }
    }
  }

  lemma Digits(n: nat, m: nat)
    requires m == 1 || m == 128 || m == 128 * 128
    ensures n % 128 * m + n / 128 * (m * 128) == n * m
    ensures n * m < LIMIT <==> n / 128 * (m * 128) < LIMIT
    ensures n >= 128 && m == 128 * 128 ==> n * m >= LIMIT
  {
    var q, r := n / 128, n % 128;
    assert n == 128 * q + r;
    if m == 1 {
    } else if m == 128 {
    } else {
    }
  }

  /** The decoder takes exactly the lengths below 128^3, and then exactly the bytes of the
      length: a four-byte length is refused although the standard allows it. */
  lemma LengthReadsBack(n: nat, rest: Bytes)
    ensures DecodeLength(EncodeLength(n) + rest).0 == if n < 2097152 then Some(n) else None
    ensures n < 2097152 ==> DecodeLength(EncodeLength(n) + rest).1 == rest
  {
    DecodeInverts(n, 1, 0, rest);
  }

  /** A length as the standard writes it: the continuation bit on all bytes but the last. */
  predicate Continued(code: Bytes) {
    code != [] && code[|code| - 1] < 128 && forall i :: 0 <= i < |code| - 1 ==> code[i] >= 128
  }

  /** The value section 2.2.3 gives to such a code. */
  function StandardValue(code: Bytes): nat {
    if code == [] then 0 else code[0] % 128 + 128 * StandardValue(code[1..])
  }

  lemma {:induction false} EncodedMeansItself(n: nat)
    ensures Continued(EncodeLength(n)) && StandardValue(EncodeLength(n)) == n
  {
    var code := EncodeLength(n);
    if n < 128 {
      assert StandardValue(code[1..]) == 0;
    } else {
      EncodedMeansItself(n / 128);
      assert code[1..] == EncodeLength(n / 128);
      assert forall i :: 1 <= i < |code| ==> code[i] == code[1..][i - 1];
    }
  }

  /** The decoder on any code that the standard allows: it takes those of up to three bytes,
      minimal or not, and exactly their bytes. */
  lemma DecoderTakesThreeBytes(code: Bytes, rest: Bytes)
    requires Continued(code)
    ensures
      var (length, unread) := DecodeLength(code + rest);
      if |code| <= 3 then length == Some(StandardValue(code)) && unread == rest else length == None
  {
    DecodeContinued(code, 1, 0, rest);
  }

  /** How many bytes the decoder takes from this multiplier on. */
  function BytesLeft(multiplier: nat): nat {
    if multiplier == 1 then 3 else if multiplier == 128 then 2 else if multiplier == 128 * 128 then 1 else 0
  }

  lemma {:induction false} DecodeContinued(code: Bytes, multiplier: nat, value: nat, rest: Bytes)
    requires Continued(code) && Multiplier(multiplier)
    ensures
      var (length, unread) := DecodeFrom(code + rest, multiplier, value);
      if |code| <= BytesLeft(multiplier)
      then length == Some(value + StandardValue(code) * multiplier) && unread == rest
      else length == None
    decreases |code|
  {
    var bytes, later := code + rest, code[1..];
    assert bytes[0] == code[0] && bytes[1..] == later + rest;
    if |code| == 1 {
      assert later + rest == rest && StandardValue(later) == 0;
    } else if multiplier < LIMIT {
      assert forall i :: 0 <= i < |later| ==> later[i] == code[i + 1];
      DecodeContinued(later, multiplier * 128, value + code[0] % 128 * multiplier, rest);
      Scaled(code[0] % 128, StandardValue(later), multiplier);
    }
  }

  lemma Scaled(digit: nat, later: nat, m: nat)
    requires Multiplier(m)
    ensures digit * m + later * (m * 128) == (digit + 128 * later) * m
  {}

  /** No code of the same value is shorter than the encoder's. */
  lemma {:induction false} EncoderIsMinimal(code: Bytes)
    requires Continued(code)
    ensures |EncodeLength(StandardValue(code))| <= |code|
    decreases |code|
  {
    var n := StandardValue(code);
    if |code| == 1 {
      assert StandardValue(code[1..]) == 0;
    } else {
      var later := code[1..];
      assert forall i :: 0 <= i < |later| ==> later[i] == code[i + 1];
      EncoderIsMinimal(later);
      assert n >= 128 ==> n / 128 == StandardValue(later);
    }
  }

  // ---------------------------------------------------------------- publications

  /** What `publish` is called with, and the packet id it would use. */
  datatype Publication = Publication(topic: Bytes, payload: Bytes, retain: bool, qos: int, packetId: nat)

  const CMD: Bytes := [47, 99, 109, 100, 47]  // "/cmd/"

  function PublishHeader(p: Publication): Byte {
    0x30 + (if p.retain then 1 else 0) + (if p.qos == 1 then 2 else 0)
  }

  function IdBytes(p: Publication): Bytes {
    if p.qos > 0 then BigEndian(p.packetId, 2) else []
  }

  function Body(p: Publication): Bytes {
    BigEndian(|p.topic|, 2) + p.topic + IdBytes(p) + p.payload
  }

  function Packet(p: Publication): Bytes {
    [PublishHeader(p)] + EncodeLength(|Body(p)|) + Body(p)
  }

  /** The topic and the message the receiver takes from a packet, if it is a PUBLISH packet
      long enough for its topic. */
  function Received(header: Byte, body: Bytes): Option<(Bytes, Bytes)> {
    if header / 16 != 3 || |body| < 2 then None
    else
      var topicLength := FromBigEndian(body[..2]);
      if |body| < 2 + topicLength then None
      else
        var offset := 2 + topicLength + (if header / 2 % 4 > 0 then 2 else 0);
        Some((body[2..2 + topicLength], if |body| > offset then body[offset..] else []))
  }

  /** The command callback's arguments, when it is called. */
  function Command(base: Bytes, header: Byte, body: Bytes): Option<(Bytes, Bytes)> {
    match Received(header, body)
    case None => None
    case Some((topic, message)) =>
      if base + CMD <= topic then Some((topic[|base + CMD|..], message)) else None
  }

  function Calls(base: Bytes, header: Byte, body: Bytes): seq<(Bytes, Bytes)> {
    match Command(base, header, body)
    case None => []
    case Some(call) => [call]
  }

  /** The calls made while a stream is received. A length the decoder refuses ends the
      connection; a body the stream does not complete is dropped. */
  function Receive(base: Bytes, bytes: Bytes): seq<(Bytes, Bytes)>
    decreases |bytes|
  {
    if bytes == [] then []
    else
      var (length, rest) := DecodeLength(bytes[1..]);
      DecodeShortens(bytes[1..], 1, 0);
      if length == None || |rest| < length.value then []
      else Calls(base, bytes[0], rest[..length.value]) + Receive(base, rest[length.value..])
  }

  /** What a timeout does to one packet: nothing, it hits its length, or its body behind the
      first `taken` bytes, which are not the whole of it. */
  datatype Cut = Uncut | InLength | InBody(taken: nat)

  /** The calls that the next packet of a stream makes, and the stream behind it; nothing is left
      when the connection is given up. A body that is cut is dropped, and what is left of it
      stays in the stream. */
  function Step(base: Bytes, bytes: Bytes, cut: Cut): (seq<(Bytes, Bytes)>, Option<Bytes>)
    requires bytes != []
  {
    var (length, rest) := DecodeLength(bytes[1..]);
    if cut.InLength? || length == None then ([], None)
    else
      if cut.InBody? && cut.taken < length.value && cut.taken < |rest| then ([], Some(rest[cut.taken..]))
      else if |rest| < length.value then ([], Some([]))
      else (Calls(base, bytes[0], rest[..length.value]), Some(rest[length.value..]))
  }

  /** The calls that the first packets of a stream make, and the stream behind them. */
  function Steps(base: Bytes, bytes: Bytes, cuts: seq<Cut>): (seq<(Bytes, Bytes)>, Option<Bytes>)
    decreases |cuts|
  {
    if cuts == [] then ([], Some(bytes))
    else
      var (calls, left) := Steps(base, bytes, cuts[..|cuts| - 1]);
      if left == None || left.value == [] then (calls, left)
      else
        var (more, next) := Step(base, left.value, cuts[|cuts| - 1]);
        (calls + more, next)
  }

  lemma StepsGrow(base: Bytes, bytes: Bytes, cuts: seq<Cut>, cut: Cut)
    requires Steps(base, bytes, cuts).1.Some? && Steps(base, bytes, cuts).1.value != []
    ensures
      var (calls, left) := Steps(base, bytes, cuts);
      var (more, next) := Step(base, left.value, cut);
      Steps(base, bytes, cuts + [cut]) == (calls + more, next)
  {
    assert (cuts + [cut])[..|cuts|] == cuts;
  }

  /** Without timeouts inside packets, what is received is a matter of the bytes alone. */
  lemma {:induction false} UncutSteps(base: Bytes, bytes: Bytes, cuts: seq<Cut>)
    requires forall cut :: cut in cuts ==> cut == Uncut
    ensures
      var (calls, left) := Steps(base, bytes, cuts);
      Receive(base, bytes) == calls + (if left.Some? then Receive(base, left.value) else [])
    decreases |cuts|
  {
    if cuts == [] {
      assert [] + Receive(base, bytes) == Receive(base, bytes);
    } else {
      var earlier := cuts[..|cuts| - 1];
      assert forall cut :: cut in earlier ==> cut in cuts;
      UncutSteps(base, bytes, earlier);
      var (calls, left) := Steps(base, bytes, earlier);
      assert cuts[|cuts| - 1] in cuts;
      if left.Some? && left.value != [] {
        UncutStep(base, left.value);
        var (more, next) := Step(base, left.value, Uncut);
        Regroup(calls, more, if next.Some? then Receive(base, next.value) else []);
      }
    }
  }

  lemma UncutStep(base: Bytes, bytes: Bytes)
    requires bytes != []
    ensures
      var (calls, left) := Step(base, bytes, Uncut);
      Receive(base, bytes) == calls + (if left.Some? then Receive(base, left.value) else [])
  {
    assert Receive(base, []) == [];
  }

  /** The stream is at its end, or the connection was given up. */
  predicate Over(left: Option<Bytes>) { left == None || left.value == [] }

  lemma UncutRun(base: Bytes, bytes: Bytes, cuts: seq<Cut>)
    ensures CountCuts(cuts) == 0 && Over(Steps(base, bytes, cuts).1) ==>
      Steps(base, bytes, cuts).0 == Receive(base, bytes)
  {
    if CountCuts(cuts) == 0 {
      NoneCut(cuts);
      UncutSteps(base, bytes, cuts);
      assert Receive(base, []) == [];
    }
  }

  /** How many packets are cut. */
  function CountCuts(cuts: seq<Cut>): nat {
    if cuts == [] then 0
    else CountCuts(cuts[..|cuts| - 1]) + (if cuts[|cuts| - 1] == Uncut then 0 else 1)
  }

  lemma {:induction false} NoneCut(cuts: seq<Cut>)
    requires CountCuts(cuts) == 0
    ensures forall cut :: cut in cuts ==> cut == Uncut
  {
    if cuts != [] {
      NoneCut(cuts[..|cuts| - 1]);
      assert cuts == cuts[..|cuts| - 1] + [cuts[|cuts| - 1]];
    }
  }

  lemma {:induction false} DecodeShortens(bytes: Bytes, multiplier: nat, value: nat)
    ensures |DecodeFrom(bytes, multiplier, value).1| <= |bytes|
    decreases |bytes|
  {
    if bytes != [] && bytes[0] >= 128 && multiplier * 128 <= LIMIT {
      DecodeShortens(bytes[1..], multiplier * 128, value + bytes[0] % 128 * multiplier);
    }
  }

  // ---------------------------------------------------------------- the client

  /** `incoming` is what the broker has sent and the client has not read; `sent` what was
      written, `room` how much more the socket takes; `commands` records the callback. */
  class MqttClient {
    const baseTopic: Bytes
    var running: bool
    var connected: bool
    var sockFd: int
    var packetId: nat
    var incoming: Bytes
    var sent: Bytes
    var room: nat
    var commands: seq<(Bytes, Bytes)>
    ghost var timeouts: nat   // reads inside packets that brought nothing too early
    ghost var silences: nat   // reads between packets that brought nothing

    constructor (baseTopic: Bytes)
      ensures this.baseTopic == baseTopic && !running && !connected && sockFd == -1 && packetId == 1
      ensures incoming == [] && sent == [] && room == 0 && commands == []
    {
      this.baseTopic, running, connected, sockFd, packetId := baseTopic, false, false, -1, 1;
      incoming, sent, room, commands, timeouts, silences := [], [], 0, [], 0, 0;
    }

    method SendRaw(data: Bytes) returns (ok: bool)
      modifies this`sent, this`room
      ensures ok == (sockFd >= 0 && |data| <= old(room))
      ensures sent == old(sent) + (if sockFd < 0 then [] else if ok then data else data[..old(room)])
    {
      if sockFd < 0 {
        return false;
      }
      var taken := if |data| <= room then |data| else room;
      sent, room := sent + data[..taken], room - taken;
      ok := taken == |data|;
      assert ok ==> data[..taken] == data;
    }

    method Publish(topic: Bytes, payload: Bytes, retain: bool, qos: int) returns (ok: bool)
      modifies this`packetId, this`sent, this`room
      ensures
        var packet := Packet(Publication(topic, payload, retain, qos, old(packetId)));
        if connected && sockFd >= 0
        then ok == (|packet| <= old(room)) && sent == old(sent) + (if ok then packet else packet[..old(room)])
        else !ok && sent == old(sent)
      ensures packetId == if connected && qos > 0 then (old(packetId) + 1) % 65536 else old(packetId)
    {
      if !connected {
        return false;
      }
      var pid := packetId;
      if qos > 0 {
        packetId := (packetId + 1) % 65536;
      }
      var packet := BuildPublish(topic, payload, retain, qos, pid);
      ok := SendRaw(packet);
    }

    method ProcessIncomingPacket(header: Byte, payload: Bytes)
      modifies this`commands
      ensures commands == old(commands) + Calls(baseTopic, header, payload)
    {
      if header / 16 * 16 != 0x30 || |payload| < 2 {
        return;
      }
      var high: nat, low: nat := payload[0], payload[1];
      assert payload[..2] == [payload[0], payload[1]];
      FromTwoBytes(payload[0], payload[1]);
      var topicLength := high * 256 + low;
      if |payload| < 2 + topicLength {
        return;
      }
      var topic := payload[2..2 + topicLength];
      var offset := 2 + topicLength;
      if header / 2 % 4 > 0 {
        offset := offset + 2;
      }
      var message: Bytes := [];
      if |payload| > offset {
        message := payload[offset..];
      }
      var prefix := baseTopic + CMD;
      if prefix <= topic {
        commands := commands + [(topic[|prefix|..], message)];
      }
    }

    /** One read: any part of what is there, or nothing when it times out (or is not tried any
        more, because the client is stopped) or the stream is at its end. A read that brings
        nothing although something comes is counted, by whether it is inside a packet. */
    method ReadRaw(size: nat, ghost inPacket: bool) returns (data: Bytes)
      requires size > 0
      modifies this`incoming, this`timeouts, this`silences
      ensures data + incoming == old(incoming) && |data| <= size
      ensures data == [] ==> incoming == old(incoming)
      ensures
        var late := data == [] && incoming != [];
        timeouts == old(timeouts) + (if late && inPacket then 1 else 0) &&
        silences == old(silences) + (if late && !inPacket then 1 else 0)
    {
      var late: bool := *;
      if late || incoming == [] {
        if incoming != [] {
          timeouts := timeouts + (if inPacket then 1 else 0);
          silences := silences + (if inPacket then 0 else 1);
        }
        return [];
      }
      var count :| 1 <= count <= size && count <= |incoming|;
      data := incoming[..count];
      incoming := incoming[count..];
    }

    method DecodeRemainingLength() returns (length: Option<nat>, ghost late: bool)
      modifies this`incoming, this`timeouts, this`silences
      ensures !late ==> (length, incoming) == DecodeLength(old(incoming))
      ensures late ==> length == None
      ensures |incoming| <= |old(incoming)|
      ensures timeouts == old(timeouts) + (if late then 1 else 0) && silences == old(silences)
    {
      var multiplier: nat := 1;
      var value: nat := 0;
      while true
        invariant DecodeFrom(incoming, multiplier, value) == DecodeLength(old(incoming))
        invariant |incoming| <= |old(incoming)|
        invariant timeouts == old(timeouts) && silences == old(silences)
        decreases |incoming|
      {
        ghost var before := incoming;
        var data := ReadRaw(1, true);
        if data == [] {
          return None, incoming != [];
        }
        assert before[0] == data[0] && before[1..] == incoming;
        value := value + data[0] % 128 * multiplier;
        multiplier := multiplier * 128;
        if multiplier > LIMIT {
          return None, false;
        }
        if data[0] < 128 {
          return Some(value), false;
        }
      }
    }

    /** The body's reads, put together, until one brings nothing. */
    method ReadBody(size: nat) returns (payload: Bytes)
      modifies this`incoming, this`timeouts, this`silences
      ensures payload + incoming == old(incoming) && |payload| <= size
      ensures timeouts == old(timeouts) + (if |payload| < size && incoming != [] then 1 else 0)
      ensures silences == old(silences)
    {
      payload := [];
      while |payload| < size
        invariant |payload| <= size && payload + incoming == old(incoming)
        invariant timeouts == old(timeouts) && silences == old(silences)
      {
        var data := ReadRaw(size - |payload|, true);
        if data == [] {
          break;
        }
        payload := payload + data;
      }
    }

    /** A packet behind its first byte; whether the connection is kept. It is cut if and only if
        a read of it timed out. */
    method ReceiveRest(header: Byte) returns (keep: bool, ghost cut: Cut)
      modifies this`incoming, this`commands, this`timeouts, this`silences
      ensures |incoming| <= |old(incoming)|
      ensures
        var (calls, left) := Step(baseTopic, [header] + old(incoming), cut);
        commands == old(commands) + calls && left == if keep then Some(incoming) else None
      ensures timeouts == old(timeouts) + (if cut == Uncut then 0 else 1) && silences == old(silences)
    {
      ghost var bytes := [header] + incoming;
      ghost var rest := DecodeLength(incoming).1;
      assert bytes[1..] == incoming;
      var length, late := DecodeRemainingLength();
      if length == None {
        assert commands + [] == commands;
        return false, if late then InLength else Uncut;
      }
      var payload := ReadBody(length.value);
      assert payload == rest[..|payload|] && incoming == rest[|payload|..];
      if |payload| == length.value {
        ProcessIncomingPacket(header, payload);
        return true, Uncut;
      }
      assert commands + [] == commands;
      return true, if incoming == [] then Uncut else InBody(|payload|);
    }

    /** The inner receive loop, until the connection is given up, the stream ends, or the client
        is stopped, after `turns` turns. `cuts` says what timeouts did to the packets: as many of
        them are cut as reads inside packets timed out. */
    method ReceiveLoop(turns: nat) returns (ghost cuts: seq<Cut>)
      modifies this`incoming, this`commands, this`timeouts, this`silences
      ensures
        var (calls, left) := Steps(baseTopic, old(incoming), cuts);
        commands == old(commands) + calls &&
        (Over(left) || |cuts| + (silences - old(silences)) == turns)
      ensures |cuts| <= |old(incoming)| && timeouts == old(timeouts) + CountCuts(cuts)
      ensures
        timeouts == old(timeouts) && turns > |old(incoming)| + (silences - old(silences)) ==>
        commands == old(commands) + Receive(baseTopic, old(incoming))
    {
      cuts := [];
      assert commands + [] == commands;
      var turn := 0;
      while turn < turns && incoming != []
        invariant turn <= turns && turn == |cuts| + (silences - old(silences))
        invariant |cuts| + |incoming| <= |old(incoming)| && timeouts == old(timeouts) + CountCuts(cuts)
        invariant Steps(baseTopic, old(incoming), cuts).1 == Some(incoming)
        invariant commands == old(commands) + Steps(baseTopic, old(incoming), cuts).0
        decreases turns - turn
      {
        turn := turn + 1;
        ghost var start := incoming;
        var first := ReadRaw(1, false);
        if first == [] {
          continue;
        }
        assert start == [first[0]] + incoming;
        var keep, cut := ReceiveRest(first[0]);
        NextStep(commands, old(commands), old(incoming), start, cuts, cut);
        cuts := cuts + [cut];
        if !keep {
          break;
        }
      }
      UncutRun(baseTopic, old(incoming), cuts);
    }

    /** What one more packet adds to the run so far. */
    lemma NextStep(now: seq<(Bytes, Bytes)>, before: seq<(Bytes, Bytes)>, bytes: Bytes, start: Bytes,
                   cuts: seq<Cut>, cut: Cut)
      requires start != [] && Steps(baseTopic, bytes, cuts).1 == Some(start)
      requires now == before + Steps(baseTopic, bytes, cuts).0 + Step(baseTopic, start, cut).0
      ensures now == before + Steps(baseTopic, bytes, cuts + [cut]).0
      ensures Steps(baseTopic, bytes, cuts + [cut]).1 == Step(baseTopic, start, cut).1
      ensures CountCuts(cuts + [cut]) == CountCuts(cuts) + (if cut == Uncut then 0 else 1)
    {
      StepsGrow(baseTopic, bytes, cuts, cut);
      Regroup(before, Steps(baseTopic, bytes, cuts).0, Step(baseTopic, start, cut).0);
      assert (cuts + [cut])[..|cuts|] == cuts;
    }
  }

  method BuildPublish(topic: Bytes, payload: Bytes, retain: bool, qos: int, pid: nat)
    returns (packet: Bytes)
    ensures packet == Packet(Publication(topic, payload, retain, qos, pid))
  {
    ghost var p := Publication(topic, payload, retain, qos, pid);
    var header: Byte := 0x30;
    if retain {
      header := header + 0x01;
    }
    if qos == 1 {
      header := header + 0x02;
    }
    var variable := BuildVariableHeader(topic, qos, pid);
    var length := EncodeRemainingLength(|variable| + |payload|);
    packet := [header] + length;
    packet := packet + variable;
    packet := packet + payload;
    Regroup([header] + length, variable, payload);
  }

  method BuildVariableHeader(topic: Bytes, qos: int, pid: nat) returns (variable: Bytes)
    ensures variable == BigEndian(|topic|, 2) + topic + (if qos > 0 then BigEndian(pid, 2) else [])
  {
    TwoBytes(|topic|);
    TwoBytes(pid);
    variable := [(|topic| / 256) % 256, |topic| % 256];
    variable := variable + topic;
    if qos > 0 {
      variable := variable + [(pid / 256) % 256, pid % 256];
    }
  }

  lemma ReceiveStep(base: Bytes, header: Byte, bytes: Bytes)
    ensures
      var (length, rest) := DecodeLength(bytes);
      Receive(base, [header] + bytes) ==
      if length == None || |rest| < length.value then []
      else Calls(base, header, rest[..length.value]) + Receive(base, rest[length.value..])
  {
    assert ([header] + bytes)[1..] == bytes;
  }

  // ---------------------------------------------------------------- what the packets mean

  /** What section 3.3 of MQTT 3.1.1 lets a receiver take from a PUBLISH packet. */
  datatype Reading = Reading(duplicate: bool, qos: nat, retain: bool, topic: Bytes,
                             packetId: Option<nat>, message: Bytes)

  /** How many bytes have their continuation bit set in front of the first that has not. */
  function ContinuedBytes(bytes: Bytes): (n: nat)
    ensures n <= |bytes|
  {
    if bytes == [] || bytes[0] < 128 then 0 else 1 + ContinuedBytes(bytes[1..])
  }

  /** What is behind a length of one to four bytes, if it has that length. */
  function Framed(bytes: Bytes): Option<Bytes> {
    var more := ContinuedBytes(bytes);
    if more > 3 || |bytes| < 1 + more then None
    else if StandardValue(bytes[..1 + more]) != |bytes| - 1 - more then None
    else Some(bytes[1 + more..])
  }

  /** Type 3 and the flags, the length, and as many bytes behind it. */
  function ReadPublish(packet: Bytes): Option<Reading> {
    if packet == [] || packet[0] / 16 != 3 then None
    else
      var body := Framed(packet[1..]);
      if body == None then None else ReadVariable(packet[0], body.value)
  }

  function FromTwo(high: nat, low: nat): nat { 256 * high + low }

  /** The topic behind its length, a packet id if and only if the QoS asks for one, the message. */
  function ReadVariable(header: Byte, body: Bytes): Option<Reading> {
    if |body| < 2 then None
    else
      var end: nat := 2 + FromTwo(body[0], body[1]);
      var qos: nat := header / 2 % 4;
      var behind := if qos == 0 then end else end + 2;
      if |body| < behind || qos == 3 then None
      else Some(Reading(header / 8 % 2 == 1, qos, header % 2 == 1, body[2..end],
                        if qos == 0 then None else Some(FromTwo(body[end], body[end + 1])), body[behind..]))
  }

  /** How a packet that `publish` writes is read by the standard, with any topic and payload it
      allows: never as a duplicate, retained if and only if that was asked for, with a packet id
      if and only if the QoS is 1; above that, the id is taken for the front of the message. */
  lemma PacketMeans(p: Publication)
    requires |p.topic| <= 65535 && p.packetId <= 65535
    ensures Packet(p)[0] % 2 == 1 <==> p.retain
    ensures
      var idBytes := [p.packetId / 256, p.packetId % 256];
      var size := 2 + |p.topic| + (if p.qos > 0 then 2 else 0) + |p.payload|;
      ReadPublish(Packet(p)) ==
      if size >= 268435456 then None
      else if p.qos == 1 then Some(Reading(false, 1, p.retain, p.topic, Some(p.packetId), p.payload))
      else Some(Reading(false, 0, p.retain, p.topic, None,
                        if p.qos > 1 then idBytes + p.payload else p.payload))
  {
    var body := Body(p);
    var code := EncodeLength(|body|);
    HeaderBits(p);
    PacketFrame(PublishHeader(p), code + body);
    Regroup([PublishHeader(p)], code, body);
    FrameMeans(body);
    BodyMeans(p);
  }

  lemma PacketFrame(header: Byte, bytes: Bytes)
    requires header / 16 == 3
    ensures ReadPublish([header] + bytes) ==
            if Framed(bytes) == None then None else ReadVariable(header, Framed(bytes).value)
  {
    assert ([header] + bytes)[1..] == bytes;
  }

  /** The first byte: type 3, no duplicate, and the two flags that can be asked for. */
  lemma HeaderBits(p: Publication)
    ensures
      var header := PublishHeader(p);
      header / 16 == 3 && header / 8 % 2 == 0 && header / 2 % 4 == (if p.qos == 1 then 1 else 0) &&
      (header % 2 == 1 <==> p.retain)
  {}

  lemma FrameMeans(body: Bytes)
    ensures Framed(EncodeLength(|body|) + body) == if |body| >= 268435456 then None else Some(body)
  {
    var code := EncodeLength(|body|);
    EncodedMeansItself(|body|);
    CodeSize(|body|);
    ContinuedEnds(code, body);
    assert (code + body)[..|code|] == code && (code + body)[|code|..] == body;
  }

  lemma BodyMeans(p: Publication)
    requires |p.topic| <= 65535 && p.packetId <= 65535
    ensures ReadVariable(PublishHeader(p), Body(p)) ==
      if p.qos == 1 then Some(Reading(false, 1, p.retain, p.topic, Some(p.packetId), p.payload))
      else Some(Reading(false, 0, p.retain, p.topic, None,
                        if p.qos > 1 then [p.packetId / 256, p.packetId % 256] + p.payload else p.payload))
  {
    BodyParts(p);
    TopicLength(Body(p), |p.topic|);
    HeaderBits(p);
    IdAndPayload(p);
    TwoBack(p.packetId);
    ReadVariableMeans(PublishHeader(p), Body(p), p.topic, IdBytes(p) + p.payload);
  }

  lemma TwoBack(n: nat)
    requires n <= 65535
    ensures (n / 256) % 256 == n / 256 && FromTwo(n / 256, n % 256) == n
  {}

  lemma TopicLength(body: Bytes, n: nat)
    requires |body| >= 2 && FromBigEndian(body[..2]) == n
    ensures FromTwo(body[0], body[1]) == n
  {
    assert body[..2] == [body[0], body[1]];
    FromTwoBytes(body[0], body[1]);
  }

  lemma IdAndPayload(p: Publication)
    ensures
      var rest := IdBytes(p) + p.payload;
      if p.qos > 0 then
        |rest| >= 2 && rest[0] == (p.packetId / 256) % 256 && rest[1] == p.packetId % 256 &&
        rest[2..] == p.payload && rest == [rest[0], rest[1]] + p.payload
      else rest == p.payload
  {
    TwoBytes(p.packetId);
  }

  lemma ReadVariableMeans(header: Byte, body: Bytes, topic: Bytes, rest: Bytes)
    requires |topic| <= 65535
    requires |body| >= 2 && FromTwo(body[0], body[1]) == |topic|
    requires |body| >= 2 + |topic| && body[2..2 + |topic|] == topic && body[2 + |topic|..] == rest
    ensures header / 2 % 4 == 0 ==>
            ReadVariable(header, body) == Some(Reading(header / 8 % 2 == 1, 0, header % 2 == 1, topic, None, rest))
    ensures header / 2 % 4 == 1 && |rest| >= 2 ==>
            ReadVariable(header, body) == Some(Reading(header / 8 % 2 == 1, 1, header % 2 == 1, topic,
                                                   Some(FromTwo(rest[0], rest[1])), rest[2..]))
  {
    var end := 2 + |topic|;
    if |rest| >= 2 {
      assert body[end] == rest[0] && body[end + 1] == rest[1];
      assert body[end + 2..] == rest[2..];
    }
  }

  /** Up to four bytes of length, as far as the standard goes. */
  lemma CodeSize(n: nat)
    ensures |EncodeLength(n)| <= 4 <==> n < 268435456
  {
    var a := n / 128;
    var b := a / 128;
    var c := b / 128;
    var d := c / 128;
    if n >= 128 {
      assert EncodeLength(n) == [n % 128 + 128] + EncodeLength(a);
      if a >= 128 {
        assert EncodeLength(a) == [a % 128 + 128] + EncodeLength(b);
        if b >= 128 {
          assert EncodeLength(b) == [b % 128 + 128] + EncodeLength(c);
          if c >= 128 {
            assert EncodeLength(c) == [c % 128 + 128] + EncodeLength(d);
          }
        }
      }
    }
  }

  lemma {:induction false} ContinuedEnds(code: Bytes, rest: Bytes)
    requires Continued(code)
    ensures ContinuedBytes(code + rest) == |code| - 1
    decreases |code|
  {
    var later := code[1..];
    assert (code + rest)[1..] == later + rest;
    if |code| > 1 {
      assert forall i :: 0 <= i < |later| ==> later[i] == code[i + 1];
      ContinuedEnds(later, rest);
    }
  }

  /** The calls for any packet that holds its whole topic: none unless it is a PUBLISH packet
      under base/cmd/, and then one, with the rest of the topic and what is behind it; two bytes
      are skipped if and only if a QoS bit is set. */
  lemma CallMeans(base: Bytes, header: Byte, topic: Bytes, rest: Bytes)
    requires |topic| <= 65535
    ensures
      var body := [|topic| / 256, |topic| % 256] + topic + rest;
      var message := if header in {0x30, 0x31, 0x38, 0x39} then rest else if |rest| < 2 then [] else rest[2..];
      Calls(base, header, body) ==
      if 0x30 <= header <= 0x3F && base + [47, 99, 109, 100, 47] <= topic
      then [(topic[|base| + 5..], message)] else []
  {
    var body := [|topic| / 256, |topic| % 256] + topic + rest;
    ReceivedMeans(header, body, topic, rest);
    FlagBits(header);
  }

  lemma FlagBits(header: Byte)
    ensures header / 16 == 3 <==> 0x30 <= header <= 0x3F
    ensures header / 16 == 3 ==> (header / 2 % 4 == 0 <==> header in {0x30, 0x31, 0x38, 0x39})
  {}

  lemma ReceivedMeans(header: Byte, body: Bytes, topic: Bytes, rest: Bytes)
    requires |topic| <= 65535 && body == [|topic| / 256, |topic| % 256] + topic + rest
    ensures Received(header, body) ==
      if header / 16 != 3 then None
      else Some((topic, if header / 2 % 4 == 0 then rest else if |rest| < 2 then [] else rest[2..]))
  {
    var end := 2 + |topic|;
    assert body[..2] == [|topic| / 256, |topic| % 256];
    TwoBytes(|topic|);
    TwoBack(|topic|);
    assert body[2..end] == topic && body[end..] == rest;
    if |rest| > 2 {
      assert body[end + 2..] == rest[2..];
    } else if |rest| == 2 {
      assert rest[2..] == [];
    }
    assert rest == [] || |body| > end;
  }

  /** A packet that does not hold its whole topic makes no call. */
  lemma ShortPacket(base: Bytes, header: Byte, body: Bytes)
    requires |body| < 2 || |body| < 2 + 256 * (body[0] as int) + body[1]
    ensures Calls(base, header, body) == []
  {
    if |body| >= 2 {
      assert body[..2] == [body[0], body[1]];
      FromTwoBytes(body[0], body[1]);
    }
  }

  // ---------------------------------------------------------------- what is sent is received

  lemma BodyParts(p: Publication)
    requires |p.topic| <= 65535
    ensures
      var body := Body(p);
      |body| >= 2 + |p.topic| && FromBigEndian(body[..2]) == |p.topic| &&
      body[2..2 + |p.topic|] == p.topic && body[2 + |p.topic|..] == IdBytes(p) + p.payload
  {
    var n := |p.topic|;
    TwoBytes(n);
    assert Body(p)[..2] == BigEndian(n, 2);
  }

  /** What the receiver takes from a PUBLISH packet with a topic the standard allows: QoS above
      1 sets no QoS bits, so that the packet id turns up in front of the message. */
  lemma PublicationReceived(p: Publication)
    requires |p.topic| <= 65535
    ensures Received(PublishHeader(p), Body(p)) ==
            Some((p.topic, (if p.qos > 1 then IdBytes(p) else []) + p.payload))
  {
    BodyParts(p);
    var rest := IdBytes(p) + p.payload;
    var offset := 2 + |p.topic|;
    var header := PublishHeader(p);
    assert header / 16 == 3 && (header / 2 % 4 > 0 <==> p.qos == 1);
    assert [] + p.payload == p.payload;
    if p.qos == 1 {
      assert Body(p)[offset + 2..] == Body(p)[offset..][2..];
      assert rest[2..] == p.payload;
    } else if p.qos <= 0 {
      assert rest == p.payload;
    }
  }

  /** Exactly which publications reach the receiver as they were sent. */
  lemma ReceivedAsSent(p: Publication)
    ensures Received(PublishHeader(p), Body(p)) == Some((p.topic, p.payload)) <==>
            |p.topic| <= 65535 && p.qos <= 1
  {
    if |p.topic| <= 65535 {
      PublicationReceived(p);
      if p.qos > 1 {
        assert |IdBytes(p) + p.payload| != |p.payload|;
      }
    } else {
      LengthFieldIsShort(Body(p));
    }
  }

  lemma LengthFieldIsShort(body: Bytes)
    requires |body| >= 2
    ensures FromBigEndian(body[..2]) <= 65535
  {
    assert body[..2] == [body[0], body[1]];
    FromTwoBytes(body[0], body[1]);
  }

  /** A publication that the client's own receive loop accepts. */
  predicate Receivable(p: Publication) {
    |p.topic| <= 65535 && p.qos <= 1 && |Body(p)| < 2097152
  }

  type Receivables = ps: seq<Publication> | forall i :: 0 <= i < |ps| ==> Receivable(ps[i])

  function Wire(ps: seq<Publication>): Bytes {
    if ps == [] then [] else Packet(ps[0]) + Wire(ps[1..])
  }

  /** The commands among the publications: the topics under base/cmd/, without that prefix. */
  function Commands(base: Bytes, ps: seq<Publication>): seq<(Bytes, Bytes)> {
    if ps == [] then []
    else
      (if base + [47, 99, 109, 100, 47] <= ps[0].topic
       then [(ps[0].topic[|base| + 5..], ps[0].payload)] else []) +
      Commands(base, ps[1..])
  }

  lemma PacketReceived(base: Bytes, p: Publication, rest: Bytes)
    requires |Body(p)| < 2097152
    ensures Receive(base, Packet(p) + rest) ==
            Calls(base, PublishHeader(p), Body(p)) + Receive(base, rest)
  {
    var body := Body(p);
    var code := EncodeLength(|body|);
    assert Packet(p) + rest == [PublishHeader(p)] + (code + (body + rest));
    ReceiveStep(base, PublishHeader(p), code + (body + rest));
    LengthReadsBack(|body|, body + rest);
    assert (body + rest)[..|body|] == body && (body + rest)[|body|..] == rest;
  }

  /** Packets sent back to back are received in order, in any fragmentation: the receive loop
      calls the callback exactly for the commands, with the exact suffix and payload. */
  lemma {:induction false} StreamReceived(base: Bytes, ps: Receivables)
    ensures Receive(base, Wire(ps)) == Commands(base, ps)
    decreases |ps|
  {
    if ps != [] {
      StreamReceived(base, ps[1..]);
      PacketReceived(base, ps[0], Wire(ps[1..]));
      PublicationReceived(ps[0]);
      assert [] + ps[0].payload == ps[0].payload;
    }
  }

  /** A packet that the stream does not complete makes no call, wherever it is cut off. */
  lemma CutOffPacket(base: Bytes, p: Publication, n: nat)
    requires n < |Packet(p)|
    ensures Receive(base, Packet(p)[..n]) == []
  {
    var body := Body(p);
    var code := EncodeLength(|body|);
    if n > 0 {
      if n - 1 < |code| {
        assert Packet(p)[..n] == [PublishHeader(p)] + code[..n - 1];
        ReceiveStep(base, PublishHeader(p), code[..n - 1]);
        EncodedMeansItself(|body|);
        CutCode(code, n - 1, 1, 0);
      } else {
        var part := body[..n - 1 - |code|];
        assert Packet(p)[..n] == [PublishHeader(p)] + (code + part);
        ReceiveStep(base, PublishHeader(p), code + part);
        LengthReadsBack(|body|, part);
      }
    }
  }

  lemma {:induction false} CutCode(code: Bytes, n: nat, multiplier: nat, value: nat)
    requires Continued(code) && n < |code|
    ensures DecodeFrom(code[..n], multiplier, value).0 == None
    decreases n
  {
    if n > 0 {
      var later := code[1..];
      assert code[..n][1..] == later[..n - 1];
      assert forall i :: 0 <= i < |later| ==> later[i] == code[i + 1];
      CutCode(later, n - 1, multiplier * 128, value + code[0] % 128 * multiplier);
    }
  }

  /** A timeout inside a body: the packet makes no call, and what is left of it is read as if
      packets began there. A timeout inside the length ends the connection. */
  lemma CutBodyIsReread(base: Bytes, p: Publication, rest: Bytes, taken: nat)
    requires |Body(p)| < 2097152 && taken < |Body(p)|
    ensures Step(base, Packet(p) + rest, InBody(taken)) == ([], Some(Body(p)[taken..] + rest))
    ensures Step(base, Packet(p) + rest, InLength) == ([], None)
  {
    var body := Body(p);
    var code := EncodeLength(|body|);
    var bytes := Packet(p) + rest;
    assert bytes == [PublishHeader(p)] + (code + (body + rest));
    assert bytes[1..] == code + (body + rest);
    LengthReadsBack(|body|, body + rest);
    assert (body + rest)[taken..] == body[taken..] + rest;
  }

  /** A body that is cut just before its payload, when the payload is a packet itself: that packet
      is received, with its call. */
  lemma CutPayloadIsReceived(base: Bytes, p: Publication, inner: Publication, rest: Bytes)
    requires |Body(p)| < 2097152 && p.payload == Packet(inner)
    ensures
      var cuts := [InBody(|Body(p)| - |p.payload|), Uncut];
      Steps(base, Packet(p) + rest, cuts)
        == (Calls(base, PublishHeader(inner), Body(inner)), Some(rest))
  {
    var taken := |Body(p)| - |p.payload|;
    var left := Packet(inner) + rest;
    var front := BigEndian(|p.topic|, 2) + p.topic + IdBytes(p);
    assert Body(p) == front + p.payload && taken == |front|;
    assert |Packet(inner)| == 1 + |EncodeLength(|Body(inner)|)| + |Body(inner)|;
    CutBodyIsReread(base, p, rest, taken);
    PacketStep(base, inner, rest);
    TwoSteps(base, Packet(p) + rest, InBody(taken), left, Uncut);
  }

  lemma TwoSteps(base: Bytes, bytes: Bytes, first: Cut, left: Bytes, second: Cut)
    requires bytes != [] && left != [] && Step(base, bytes, first) == ([], Some(left))
    ensures Steps(base, bytes, [first, second]) == Step(base, left, second)
  {
    var none: seq<(Bytes, Bytes)>, calls := [], Step(base, left, second).0;
    assert none + none == none && none + calls == calls;
    assert [] + [first] == [first] && [first] + [second] == [first, second];
    StepsGrow(base, bytes, [], first);
    StepsGrow(base, bytes, [first], second);
  }

  lemma PacketStep(base: Bytes, p: Publication, rest: Bytes)
    requires |Body(p)| < 2097152
    ensures Step(base, Packet(p) + rest, Uncut) == (Calls(base, PublishHeader(p), Body(p)), Some(rest))
  {
    var body := Body(p);
    var code := EncodeLength(|body|);
    var bytes := Packet(p) + rest;
    assert bytes == [PublishHeader(p)] + (code + (body + rest));
    assert bytes[1..] == code + (body + rest);
    LengthReadsBack(|body|, body + rest);
    assert (body + rest)[..|body|] == body && (body + rest)[|body|..] == rest;
  }

  /** A body of 128^3 bytes or more ends the connection: nothing from it on is received. */
  lemma LongPacketEndsConnection(base: Bytes, p: Publication, rest: Bytes)
    requires |Body(p)| >= 2097152
    ensures Receive(base, Packet(p) + rest) == []
  {
    var code := EncodeLength(|Body(p)|);
    assert Packet(p) + rest == [PublishHeader(p)] + (code + (Body(p) + rest));
    ReceiveStep(base, PublishHeader(p), code + (Body(p) + rest));
    LengthReadsBack(|Body(p)|, Body(p) + rest);
  }
}
