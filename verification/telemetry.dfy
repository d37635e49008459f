/** The telemetry variant: wait a bounded number of attempts for Wi-Fi,
    derive an MQTT client id from three random bytes, then on every cycle
    turn the pending pulses into cpm, reset the counter and publish
    `field1=<cpm>` to the channel's topic. */
module Telemetry {
  import opened Text
  import opened Pulses
  import opened RateWindow

  /** `maxAttempts` */
  const MAX_ATTEMPTS: nat := 20

  /** LOG_PERIOD = 30000 and MAX_PERIOD = 60000: a multiplier of 2. */
  const TELEMETRY_CONFIG := Config(30000, 60000)

  // ---------------------------------------------------------------------
  // Waiting for the network

  /** The answer of the k-th call of `wifi.isconnected()`; calls past the
      recorded answers report no connection. */
  predicate ConnectedAt(answers: seq<bool>, k: nat) {
    k < |answers| && answers[k]
  }

  /** The wait loop: `isconnected()` is asked before each attempt, and the
      loop gives up after MAX_ATTEMPTS attempts. Afterwards the script goes
      on whether or not a connection was made. */
  method AwaitWifi(answers: seq<bool>) returns (attemptCount: nat)
    ensures attemptCount <= MAX_ATTEMPTS
    ensures forall k | 0 <= k < attemptCount :: !ConnectedAt(answers, k)
    ensures attemptCount < MAX_ATTEMPTS ==> ConnectedAt(answers, attemptCount)
  {
    attemptCount := 0;
    while !ConnectedAt(answers, attemptCount) && attemptCount < MAX_ATTEMPTS
      invariant attemptCount <= MAX_ATTEMPTS
      invariant forall k | 0 <= k < attemptCount :: !ConnectedAt(answers, k)
      decreases MAX_ATTEMPTS - attemptCount
    {
      attemptCount := attemptCount + 1;
    }
  }

  // ---------------------------------------------------------------------
  // The client id

  newtype byte = x: int | 0 <= x < 256

  function Pow256(k: nat): (p: nat)
    ensures p >= 1
  {
    if k == 0 then 1 else 256 * Pow256(k - 1)
  }

  /** `int.from_bytes(bs, 'little')`: the first byte is the least significant. */
  function FromBytesLittle(bs: seq<byte>): (n: nat)
    ensures n < Pow256(|bs|)
  {
    if bs == [] then 0
    else
      var rest := FromBytesLittle(bs[1..]);
      assert rest <= Pow256(|bs| - 1) - 1;
      assert 256 * rest <= 256 * Pow256(|bs| - 1) - 256;
      bs[0] as nat + 256 * rest
  }

  /** The `len`-byte little-endian encoding of `n`, the inverse of
      FromBytesLittle. */
  function ToBytesLittle(n: nat, len: nat): (bs: seq<byte>)
    requires n < Pow256(len)
    ensures |bs| == len
  {
    if len == 0 then []
    else
      assert n / 256 < Pow256(len - 1);
      [(n % 256) as byte] + ToBytesLittle(n / 256, len - 1)
  }

  lemma {:induction false} DecodeEncode(n: nat, len: nat)
    requires n < Pow256(len)
    ensures FromBytesLittle(ToBytesLittle(n, len)) == n
  {
    if len > 0 {
      assert n / 256 < Pow256(len - 1);
      DecodeEncode(n / 256, len - 1);
      var bs := ToBytesLittle(n, len);
      assert bs[1..] == ToBytesLittle(n / 256, len - 1);
    }
  }

  lemma {:induction false} EncodeDecode(bs: seq<byte>)
    ensures ToBytesLittle(FromBytesLittle(bs), |bs|) == bs
  {
    if bs != [] {
      EncodeDecode(bs[1..]);
      var n := FromBytesLittle(bs);
      assert n % 256 == bs[0] as nat && n / 256 == FromBytesLittle(bs[1..]);
    }
  }

  /** Three random bytes give b0 + 256*b1 + 65536*b2, below 2^24. */
  lemma ThreeBytes(b0: byte, b1: byte, b2: byte)
    ensures FromBytesLittle([b0, b1, b2]) == b0 as nat + 256 * b1 as nat + 65536 * b2 as nat
    ensures FromBytesLittle([b0, b1, b2]) < 0x100_0000
  {
    assert [b0, b1, b2][1..] == [b1, b2];
    assert [b1, b2][1..] == [b2];
    assert [b2][1..] == [];
    assert FromBytesLittle([b2]) == b2 as nat;
    assert FromBytesLittle([b1, b2]) == b1 as nat + 256 * b2 as nat;
  }

  /** The number a client id was built from. */
  function ClientNumber(id: string): Option<nat> {
    match Between(id, "client_", "")
    case None => None
    case Some(digits) => ParseDecimal(digits)
  }

  /** `"client_" + str(randomNum)`: the id reads back to the number decoded
      from the random bytes. */
  function ClientId(random: seq<byte>): (id: string)
    ensures ClientNumber(id) == Some(FromBytesLittle(random))
  {
    var d := Decimal(FromBytesLittle(random));
    assert "client_" + d == "client_" + d + "";
    BetweenOf("client_", d, "");
    DecimalRoundTrip(FromBytesLittle(random));
    "client_" + d
  }

  /** The id is fixed by the number it carries: any text that reads back
      to ClientId's number is ClientId's text. */
  lemma ClientIdExact(random: seq<byte>, id: string)
    requires ClientNumber(id) == Some(FromBytesLittle(random))
    ensures id == ClientId(random)
  {
    var digits := Between(id, "client_", "").value;
    BetweenFrames(id, "client_", "", digits);
    ParseDecimalOnlyDecimal(digits, FromBytesLittle(random));
    assert id == "client_" + digits;
  }

  // ---------------------------------------------------------------------
  // Topic and payload

  function IndexOf(s: string, c: char): (r: Option<nat>)
    ensures r.Some? ==> r.value < |s| && s[r.value] == c
    ensures r.Some? ==> forall j | 0 <= j < r.value :: s[j] != c
    ensures r.None? ==> forall j | 0 <= j < |s| :: s[j] != c
  {
    if s == [] then None
    else if s[0] == c then Some(0)
    else match IndexOf(s[1..], c)
      case None => None
      case Some(i) => Some(i + 1)
  }

  /** A character met at `i` and nowhere before is found at `i`. */
  lemma IndexOfFirst(s: string, c: char, i: nat)
    requires i < |s| && s[i] == c
    requires forall j | 0 <= j < i :: s[j] != c
    ensures IndexOf(s, c) == Some(i)
  {
    var r := IndexOf(s, c);
    assert r.Some? && r.value <= i;
  }

  predicate NoSlash(s: string) {
    forall i | 0 <= i < |s| :: s[i] != '/'
  }

  /** Reads a topic back into its channel id and write key. */
  function SplitTopic(topic: string): Option<(string, string)> {
    match Between(topic, "channels/", "")
    case None => None
    case Some(rest) =>
      match IndexOf(rest, '/')
      case None => None
      case Some(i) =>
        if i + 9 <= |rest| && rest[i..i + 9] == "/publish/" then Some((rest[..i], rest[i + 9..])) else None
  }

  /** `"channels/{:s}/publish/{:s}".format(channelId, writeKey)`: the
      topic names the channel and key it was built from, as long as the
      channel id holds no slash. */
  function Topic(channelId: string, writeKey: string): (topic: string)
    ensures NoSlash(channelId) ==> SplitTopic(topic) == Some((channelId, writeKey))
  {
    SplitTopicOf(channelId, writeKey);
    "channels/" + channelId + "/publish/" + writeKey
  }

  lemma SplitTopicOf(channelId: string, writeKey: string)
    ensures NoSlash(channelId) ==>
              SplitTopic("channels/" + channelId + "/publish/" + writeKey) == Some((channelId, writeKey))
  {
    if !NoSlash(channelId) { return; }
    var rest := channelId + "/publish/" + writeKey;
    assert "channels/" + channelId + "/publish/" + writeKey == "channels/" + rest + "";
    BetweenOf("channels/", rest, "");
    var i := |channelId|;
    assert forall j | 0 <= j < i :: rest[j] == channelId[j];
    IndexOfFirst(rest, '/', i);
    assert rest[i..i + 9] == "/publish/";
    assert rest[i + 9..] == writeKey;
    assert rest[..i] == channelId;
  }

  /** The cpm a payload carries. */
  function PayloadCpm(payload: string): Option<nat> {
    match Between(payload, "field1=", ".00\n")
    case None => None
    case Some(digits) => ParseDecimal(digits)
  }

  /** `"field1={:.2f}\n".format(cpm)` for the whole-number cpm this variant
      computes: the payload reads back to that cpm. */
  function Payload(cpm: nat): (payload: string)
    ensures PayloadCpm(payload) == Some(cpm)
  {
    BetweenOf("field1=", Decimal(cpm), ".00\n");
    DecimalRoundTrip(cpm);
    "field1=" + Decimal(cpm) + ".00\n"
  }

  /** The payload is fixed by the cpm it carries: any text that reads back
      to cpm is Payload's text. */
  lemma PayloadExact(cpm: nat, payload: string)
    requires PayloadCpm(payload) == Some(cpm)
    ensures payload == Payload(cpm)
  {
    var digits := Between(payload, "field1=", ".00\n").value;
    BetweenFrames(payload, "field1=", ".00\n", digits);
    ParseDecimalOnlyDecimal(digits, cpm);
  }

  /** An empty cycle publishes "field1=0.00\n". */
  lemma ZeroPayload()
    ensures Payload(0) == "field1=0.00\n"
  {
    assert Decimal(0) == "0";
  }

  // ---------------------------------------------------------------------
  // The publishing loop

  /** `multiplier = MAX_PERIOD / LOG_PERIOD` is 2 in this variant. */
  lemma TelemetryMultiplier()
    ensures TELEMETRY_CONFIG.Valid() && Multiplier(TELEMETRY_CONFIG) == 2
  {
  }

  class TelemetryNode {
    const pulses: PulseCounter
    const channelId: string
    const writeKey: string
    var cpm: nat

    ghost predicate Valid()
      reads this, pulses
    {
      pulses.Valid()
    }

    constructor (channelId: string, writeKey: string)
      ensures Valid() && fresh(pulses)
      ensures this.channelId == channelId && this.writeKey == writeKey
      ensures cpm == 0 && pulses.count == 0 && pulses.total == 0 && pulses.drains == []
    {
      pulses := new PulseCounter();
      this.channelId := channelId;
      this.writeKey := writeKey;
      cpm := 0;
    }

    /** One pass of the main loop: no elapsed-time check; twice the pending
        count becomes cpm, the counter restarts from zero,
        and the topic and payload to publish are built. */
    method Cycle() returns (topic: string, payload: string)
      requires Valid()
      modifies this, pulses
      ensures Valid()
      ensures cpm == 2 * old(pulses.count)
      ensures pulses.count == 0 && pulses.total == old(pulses.total)
      ensures pulses.drains == old(pulses.drains) + [old(pulses.count)]
      ensures topic == Topic(channelId, writeKey)
      ensures payload == Payload(cpm) && PayloadCpm(payload) == Some(cpm)
    {
      var n := pulses.Drain();
      TelemetryMultiplier();
      cpm := n * Multiplier(TELEMETRY_CONFIG);
      topic := Topic(channelId, writeKey);
      payload := Payload(cpm);
    }
  }
}
