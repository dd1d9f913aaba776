/** MQTT PUBLISH packets (section 3.3 of MQTT 3.1.1) and the functions of mqtt_msg.c that read
    one from the first bytes of it. */
module MqttMessage {
  import opened Options
  import opened Bytes

  /** `id` is the packet identifier, present when the QoS is above 0. */
  datatype Publish = Publish(flags: byte, topic: seq<byte>, id: seq<byte>, payload: seq<byte>)

  function Qos(flags: byte): nat {
    flags / 2 % 4
  }

  /** Bits 2 and 1 of the flags (section 3.3.1.2 of MQTT 3.1.1). */
  lemma QosBits(flags: byte, high: nat, b2: nat, b1: nat, b0: nat)
    requires b2 < 2 && b1 < 2 && b0 < 2 && flags == 8 * high + 4 * b2 + 2 * b1 + b0
    ensures Qos(flags) == 2 * b2 + b1
  {
  }

  predicate WellFormed(m: Publish) {
    |m.topic| < 0x10000 && |m.id| == if Qos(m.flags) > 0 then 2 else 0
  }

  /** The remaining length: seven bits a byte, low bits first (section 2.2.3). */
  function VarInt(n: nat): seq<byte> {
    if n < 128 then [n] else [128 + n % 128] + VarInt(n / 128)
  }

  function Rest(m: Publish): nat {
    2 + |m.topic| + |m.id| + |m.payload|
  }

  function TopicPart(m: Publish): seq<byte>
    requires WellFormed(m)
  {
    [|m.topic| / 256, |m.topic| % 256] + m.topic
  }

  function Header(m: Publish): seq<byte>
    requires WellFormed(m)
  {
    [m.flags] + VarInt(Rest(m)) + TopicPart(m) + m.id
  }

  function Encode(m: Publish): seq<byte>
    requires WellFormed(m)
  {
    Header(m) + m.payload
  }

  /** The seven value bits of a byte of the remaining length. */
  function Low(b: byte): nat {
    b % 128
  }

  function Low16(hi: byte, lo: byte): nat {
    256 * hi as int + lo
  }

  /** The loop over the remaining length in the bytes at hand, from byte i with weight w: the
      index behind it and its value. */
  function LengthFrom(buf: seq<byte>, i: nat, w: nat): (nat, nat)
    decreases |buf| - i
  {
    if i >= |buf| then (i, 0)
    else if buf[i] < 128 then (i + 1, Low(buf[i]) * w)
    else
      var (end, value) := LengthFrom(buf, i + 1, w * 128);
      (end, Low(buf[i]) * w + value)
  }

  /** The loop as written. */
  method ReadLength(buf: seq<byte>) returns (i: nat, value: nat)
    requires |buf| > 0
    ensures (i, value) == LengthFrom(buf, 1, 1)
  {
    i, value := 1, 0;
    var w: nat := 1;
    while i < |buf|
      invariant 1 <= i <= |buf|
      invariant var (end, rest) := LengthFrom(buf, i, w);
        LengthFrom(buf, 1, 1) == (end, value + rest)
    {
      value := value + Low(buf[i]) * w;
      if buf[i] < 128 {
        i := i + 1;
        break;
      }
      i, w := i + 1, w * 128;
    }
  }

  /** mqtt_get_total_length */
  function TotalLength(buf: seq<byte>): nat {
    var (i, value) := LengthFrom(buf, 1, 1);
    value + i
  }

  method GetTotalLength(buf: seq<byte>) returns (length: nat)
    requires |buf| > 0
    ensures length == TotalLength(buf)
  {
    var i, value := ReadLength(buf);
    length := value + i;
  }

  /** mqtt_get_publish_data: where the payload starts and how much of it is among the bytes at
      hand; None is the null pointer with length 0. */
  function PublishData(buf: seq<byte>): (r: Option<(nat, nat)>)
    requires |buf| > 0
    ensures r.Some? ==> r.value.0 + r.value.1 <= |buf|
  {
    var n := |buf|;
    var (i, value) := LengthFrom(buf, 1, 1);
    var total := value + i;
    if i + 2 >= n then None
    else
      var at := i + 2 + Low16(buf[i], buf[i + 1]);
      if at >= n then None
      else if Qos(buf[0]) > 0 && at + 2 >= n then None
      else
        var start := if Qos(buf[0]) > 0 then at + 2 else at;
        if total < start then None
        else Some((start, if total <= n then total - start else n - start))
  }

  function FirstData(buf: seq<byte>): seq<byte>
    requires |buf| > 0
  {
    var d := PublishData(buf);
    if d.None? then [] else buf[d.value.0..d.value.0 + d.value.1]
  }

  lemma Weigh(n: nat, w: nat)
    ensures n % 128 * w + n / 128 * (w * 128) == n * w
  {
    assert n == n / 128 * 128 + n % 128;
    calc {
      n * w;
      (n / 128 * 128 + n % 128) * w;
      n / 128 * 128 * w + n % 128 * w;
    }
  }

  /** A complete length is read back; from a part of it the loop takes a smaller one. */
  lemma {:induction false} ReadsVarInt(buf: seq<byte>, i: nat, w: nat, value: nat)
    requires i <= |buf| && w > 0 && value > 0
    requires forall k :: 0 <= k < |VarInt(value)| && i + k < |buf| ==> buf[i + k] == VarInt(value)[k]
    ensures i + |VarInt(value)| <= |buf| ==> LengthFrom(buf, i, w) == (i + |VarInt(value)|, value * w)
    ensures |buf| < i + |VarInt(value)| ==> LengthFrom(buf, i, w).0 == |buf|
    ensures |buf| < i + |VarInt(value)| ==> LengthFrom(buf, i, w).1 < value * w
    decreases value
  {
    if i == |buf| {
      assert value * w >= 1;
    } else {
      assert buf[i] == VarInt(value)[0];
      if value >= 128 {
        var more := VarInt(value / 128);
        assert VarInt(value) == [VarInt(value)[0]] + more;
        forall k | 0 <= k < |more| && i + 1 + k < |buf| ensures buf[i + 1 + k] == more[k] {
          assert VarInt(value)[k + 1] == more[k];
        }
        ReadsVarInt(buf, i + 1, w * 128, value / 128);
        Weigh(value, w);
      }
    }
  }

  lemma HeaderShape(m: Publish)
    requires WellFormed(m)
    ensures var v, e := |VarInt(Rest(m))|, Encode(m);
      |Header(m)| == 3 + v + |m.topic| + |m.id| && |e| == 1 + v + Rest(m)
      && e[0] == m.flags && (forall k :: 0 <= k < v ==> e[1 + k] == VarInt(Rest(m))[k])
      && e[1 + v] == |m.topic| / 256 && e[2 + v] == |m.topic| % 256
  {
    var v := VarInt(Rest(m));
    assert Encode(m) == [m.flags] + (v + (TopicPart(m) + m.id + m.payload));
    assert (TopicPart(m) + m.id + m.payload)[0] == TopicPart(m)[0];
    assert (TopicPart(m) + m.id + m.payload)[1] == TopicPart(m)[1];
  }

  /** From the end of the header on, a message is its payload. */
  lemma PayloadPart(m: Publish, n: nat)
    requires WellFormed(m) && |Header(m)| <= n <= |Encode(m)|
    ensures Encode(m)[..n] == Header(m) + m.payload[..n - |Header(m)|]
    ensures Encode(m)[..n][|Header(m)|..n] == m.payload[..n - |Header(m)|]
  {
    var header := Header(m);
    assert (header + m.payload)[..n] == header + m.payload[..n - |header|];
  }

  /** The remaining length among the first n bytes of a message. */
  lemma LengthCut(m: Publish, n: nat)
    requires WellFormed(m) && 1 <= n <= |Encode(m)|
    ensures var v, (i, value) := |VarInt(Rest(m))|, LengthFrom(Encode(m)[..n], 1, 1);
      if 1 + v <= n then (i, value) == (1 + v, Rest(m)) else i == n && value < Rest(m)
  {
    HeaderShape(m);
    ReadsVarInt(Encode(m)[..n], 1, 1, Rest(m));
  }

  /** What the first n bytes of a message tell: once they hold the header, the exact length and
      the part of the payload among them; before that, no payload and at most the length. */
  lemma FirstCut(m: Publish, n: nat)
    requires WellFormed(m) && 1 <= n <= |Encode(m)|
    ensures |Header(m)| <= n ==> FirstData(Encode(m)[..n]) == m.payload[..n - |Header(m)|]
    ensures |Header(m)| <= n ==> TotalLength(Encode(m)[..n]) == |Encode(m)|
    ensures n < |Header(m)| ==> FirstData(Encode(m)[..n]) == []
    ensures n < |Header(m)| ==> n <= TotalLength(Encode(m)[..n]) <= |Encode(m)|
  {
    HeaderShape(m);
    LengthCut(m, n);
    if |Header(m)| < n {
      assert PublishData(Encode(m)[..n]) == Some((|Header(m)|, n - |Header(m)|));
      PayloadPart(m, n);
    }
  }

  /** With other bytes behind a whole message, its payload is still all that is taken. */
  lemma WholeMessage(m: Publish, more: seq<byte>)
    requires WellFormed(m)
    ensures FirstData(Encode(m) + more) == m.payload && TotalLength(Encode(m) + more) == |Encode(m)|
  {
    var e, h, v := Encode(m), |Header(m)|, |VarInt(Rest(m))|;
    var buf := e + more;
    HeaderShape(m);
    assert forall k :: 0 <= k < |e| ==> buf[k] == e[k];
    ReadsVarInt(buf, 1, 1, Rest(m));
    assert buf[0] == m.flags && buf[1 + v] == |m.topic| / 256 && buf[2 + v] == |m.topic| % 256;
    if h < |buf| {
      assert PublishData(buf) == Some((h, |m.payload|));
      assert buf[h..h + |m.payload|] == e[h..] == m.payload;
    }
  }
}
