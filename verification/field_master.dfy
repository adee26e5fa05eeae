/** The field master: one poll of an IO card, from requests to decoded channel samples. */
module FieldMaster {
  import opened ModbusFrames
  import opened ModbusTcp
  import opened ModbusClient
  import opened AgriRegisters
  import opened AgriIoCard

  datatype ChannelSample = ChannelSample(
    temp: real, humidity: real, lux: real, soil: real, soilTemp: real, quality: word, count: uint32, ok: bool)

  function BlankSample(): ChannelSample {
    ChannelSample(0.0, 0.0, 0.0, 0.0, 0.0, 0, 0, false)
  }

  /** Bit 0 of the quality register is good, bit 5 is communication lost. */
  function DecodeChannel(block: seq<word>): ChannelSample {
    if |block| < CHANNEL_STRIDE then BlankSample()
    else
      var quality := block[OFF_QUALITY];
      ChannelSample(
        DecodeSigned(block[OFF_AIR_TEMP]), DecodeUnsigned(block[OFF_AIR_HUMIDITY]), block[OFF_ILLUMINANCE] as real,
        DecodeUnsigned(block[OFF_SOIL_MOISTURE]), DecodeSigned(block[OFF_SOIL_TEMP]),
        quality, Unpack(block[OFF_SEQ_LO], block[OFF_SEQ_HI]),
        quality % 2 != 0 && quality / 32 % 2 == 0)
  }

  /** The sample is good, carries the counter, and each value is the physical one up to the register resolution. */
  predicate Faithful(d: ChannelSample, c: Climate, count: uint32) {
    && d.ok && d.count == count
    && Tenth(d.temp, c.temp) && Tenth(d.humidity, c.humidity)
    && c.lux - 1.0 < d.lux <= c.lux
    && Tenth(d.soil, c.moisture) && Tenth(d.soilTemp, c.soilTemp)
  }

  /** The registers of one channel. */
  function Slice(regs: seq<word>, channel: word): seq<word>
    requires channel < CHANNEL_MAX && ChannelBase(channel) + CHANNEL_STRIDE <= |regs|
  {
    regs[ChannelBase(channel)..ChannelBase(channel) + CHANNEL_STRIDE]
  }

  lemma BlockIsFaithful(c: Climate, count: uint32, block: seq<word>)
    requires 0.0 < c.temp < 100.0 && 0.0 < c.humidity < 100.0 && 0.0 < c.moisture < 100.0 && 0.0 < c.soilTemp < 100.0
    requires 0.0 < c.lux < 65535.0
    requires |block| == CHANNEL_STRIDE && block[..10] == Block(c, count)
    ensures Faithful(DecodeChannel(block), c, count)
  {
    hide DecodeSigned, EncodeSigned, DecodeUnsigned, EncodeUnsigned, Unpack, PackLow, PackHigh, Tenth;
    forall k | 0 <= k < 10 ensures block[k] == Block(c, count)[k] {
      assert block[..10][k] == block[k];
    }
    SignedRoundTrip(c.temp);
    UnsignedRoundTrip(c.humidity);
    UnsignedRoundTrip(c.moisture);
    SignedRoundTrip(c.soilTemp);
    PackRoundTrip(count);
  }

  /** What the card sampled at a channel is what the master decodes from that channel's registers. */
  lemma SampledIsDecoded(regs: seq<word>, n: word, sines: seq<Sines>, count: uint32, channel: word)
    requires n <= CHANNEL_MAX && |sines| == n && (forall k | 0 <= k < n :: sines[k].Valid())
    requires Sampled(regs, n, sines, count) && channel < n
    ensures ChannelBase(channel) + CHANNEL_STRIDE <= |regs|
    ensures Faithful(DecodeChannel(Slice(regs, channel)), ClimateOf(channel, sines[channel]), count)
  {
    hide Block, ClimateOf, DecodeChannel;
    BlocksTile(n, channel);
    ClimateFits(channel, sines[channel]);
    assert ChannelSampled(regs, channel, sines[channel], count);
    var base := ChannelBase(channel);
    assert Slice(regs, channel)[..10] == regs[base..base + 10];
    BlockIsFaithful(ClimateOf(channel, sines[channel]), count, Slice(regs, channel));
  }

  const MAX_REGS_PER_READ: word := 120
  const FAIL_THRESHOLD := 3

  /** A request the server must answer with registers. */
  predicate Legal(request: (nat, nat), size: nat) {
    1 <= request.1 <= 125 && request.0 + request.1 <= size
  }

  function Quantity(remaining: nat): nat {
    if remaining > MAX_REGS_PER_READ then MAX_REGS_PER_READ else remaining
  }

  /** The ranges from `from` on, each of 120 registers but the last. */
  function Chunks(from: nat, remaining: nat): (r: seq<(nat, nat)>)
    decreases remaining
  {
    if remaining == 0 then []
    else [(from, Quantity(remaining))] + Chunks(from + Quantity(remaining), remaining - Quantity(remaining))
  }

  /** The chunked read of all channel blocks. */
  method ReadChannels(client: TcpClient, unit: byte, channels: word, peer: RegisterBank)
    returns (ok: bool, values: seq<word>, ghost requests: seq<(nat, nat)>)
    requires 1 <= channels <= CHANNEL_MAX && client.Clean()
    modifies client, client.up, client.down, peer
    ensures client.Clean() && peer.regs == old(peer.regs)
    ensures |peer.regs| >= BankSize(channels) ==>
              && (forall r | r in requests :: Legal(r, |peer.regs|))
              && (ok ==> client.connected)
              && (!ok ==> !client.connected)
              && (client.Reliable() && old(client.connected) ==> ok)
    ensures ok ==> BankSize(channels) <= |peer.regs| && values == peer.regs[CHANNEL_BASE..BankSize(channels)]
    ensures requests <= Chunks(CHANNEL_BASE, ChannelBlockCount(channels))
    ensures ok ==> requests == Chunks(CHANNEL_BASE, ChannelBlockCount(channels))
  {
    hide ChannelBlockCount, BankSize, ChannelBase, Legal, Chunks, Collected, Asked;
    ok, values, requests := true, [], [];
    var remaining: word, addr: word := ChannelBlockCount(channels), CHANNEL_BASE;
    ghost var regs, total := peer.regs, ChannelBlockCount(channels);
    BlocksTile(channels, 0);
    ChunksAreLegal(CHANNEL_BASE, total, |regs|);
    NothingAsked(regs, total);
    while remaining > 0
      invariant ok && CHANNEL_BASE <= addr && addr + remaining == BankSize(channels)
      invariant client.Clean() && peer.regs == regs
      invariant addr > CHANNEL_BASE || (old(client.connected) && client.Reliable()) ==> client.connected
      invariant addr == CHANNEL_BASE || addr <= |regs|
      invariant values == Collected(regs, addr)
      invariant Asked(requests, addr, remaining, total)
    {
      var quantity := if remaining > MAX_REGS_PER_READ then MAX_REGS_PER_READ else remaining;
      AskedThen(requests, addr, remaining, total);
      requests := requests + [(addr, quantity)];
      var chunk;
      ok, chunk := client.ReadHoldingRegisters(unit, addr, quantity, peer);
      AllAsked(requests, addr + quantity, remaining - quantity, total);
      if !ok {
        break;
      }
      values := values + chunk;
      CollectedThen(regs, addr, quantity);
      addr := (addr + quantity) % 65536;
      remaining := (remaining - quantity) % 65536;
    }
    if ok {
      AllAsked(requests, addr, remaining, total);
      AllCollected(regs, addr);
    }
  }

  /** The requests made so far, before the chunks still to come. */
  ghost predicate Asked(requests: seq<(nat, nat)>, addr: nat, remaining: nat, total: nat) {
    requests + Chunks(addr, remaining) == Chunks(CHANNEL_BASE, total)
  }

  lemma AskedThen(requests: seq<(nat, nat)>, addr: nat, remaining: nat, total: nat)
    requires remaining > 0 && Asked(requests, addr, remaining, total)
    ensures var quantity := Quantity(remaining);
            Asked(requests + [(addr, quantity)], addr + quantity, remaining - quantity, total)
  {
  }

  lemma NothingAsked(regs: seq<word>, total: nat)
    ensures Asked([], CHANNEL_BASE, total, total) && Collected(regs, CHANNEL_BASE) == []
  {
  }

  lemma AllAsked(requests: seq<(nat, nat)>, addr: nat, remaining: nat, total: nat)
    requires Asked(requests, addr, remaining, total)
    ensures requests <= Chunks(CHANNEL_BASE, total)
    ensures remaining == 0 ==> requests == Chunks(CHANNEL_BASE, total)
  {
  }

  lemma AllCollected(regs: seq<word>, to: nat)
    requires CHANNEL_BASE < to <= |regs|
    ensures Collected(regs, to) == regs[CHANNEL_BASE..to]
  {
  }

  lemma {:induction false} ChunksAreLegal(from: nat, remaining: nat, size: nat)
    ensures from + remaining <= size ==> forall r | r in Chunks(from, remaining) :: Legal(r, size)
    decreases remaining
  {
    if remaining > 0 {
      ChunksAreLegal(from + Quantity(remaining), remaining - Quantity(remaining), size);
    }
  }

  /** The registers from the first block up to `to`. */
  ghost function Collected(regs: seq<word>, to: nat): seq<word> {
    if CHANNEL_BASE < to <= |regs| then regs[CHANNEL_BASE..to] else []
  }

  lemma CollectedThen(regs: seq<word>, from: nat, quantity: nat)
    requires CHANNEL_BASE <= from && quantity > 0 && from + quantity <= |regs|
    ensures Collected(regs, from) + regs[from..from + quantity] == Collected(regs, from + quantity)
  {
  }

  lemma SliceOfBlocks(regs: seq<word>, channels: word, ch: word)
    requires ch < channels <= CHANNEL_MAX && BankSize(channels) <= |regs|
    ensures ChannelBase(ch) + CHANNEL_STRIDE <= BankSize(channels) == CHANNEL_BASE + channels * CHANNEL_STRIDE
    ensures var blocks, off := regs[CHANNEL_BASE..BankSize(channels)], ch * CHANNEL_STRIDE;
            blocks[off..off + CHANNEL_STRIDE] == Slice(regs, ch)
  {
    BlocksTile(channels, ch);
    assert ChannelBase(ch) == CHANNEL_BASE + ch * CHANNEL_STRIDE;
  }

  lemma {:induction false} ChunkAt(from: nat, remaining: nat, k: nat)
    requires k < |Chunks(from, remaining)|
    ensures k * MAX_REGS_PER_READ < remaining
    ensures Chunks(from, remaining)[k] ==
            (from + k * MAX_REGS_PER_READ, Quantity(remaining - k * MAX_REGS_PER_READ))
    decreases k
  {
    if k > 0 {
      ChunkAt(from + Quantity(remaining), remaining - Quantity(remaining), k - 1);
    }
  }

  lemma {:induction false} ChunkCount(from: nat, remaining: nat, k: nat)
    requires k * MAX_REGS_PER_READ < remaining
    ensures k < |Chunks(from, remaining)|
    decreases k
  {
    if k > 0 {
      ChunkCount(from + Quantity(remaining), remaining - Quantity(remaining), k - 1);
    }
  }

  /** The request reads the whole block of the channel. */
  predicate Covers(request: (nat, nat), channel: word) {
    request.0 <= ChannelBase(channel) && ChannelBase(channel) + CHANNEL_STRIDE <= request.0 + request.1
  }

  lemma ChunkCovers(channels: word, channel: word, k: nat)
    requires channel < channels <= CHANNEL_MAX
    requires k < |Chunks(CHANNEL_BASE, ChannelBlockCount(channels))|
    ensures Covers(Chunks(CHANNEL_BASE, ChannelBlockCount(channels))[k], channel)
            <==> k * 120 <= channel * 16 && channel * 16 + 16 <= k * 120 + 120
  {
    ChunkAt(CHANNEL_BASE, ChannelBlockCount(channels), k);
  }

  /** A chunk is not a whole number of blocks: every channel is read in one request, but for channels 7 and 22. */
  lemma SplitChannels(channels: word, channel: word)
    requires channel < channels <= CHANNEL_MAX
    ensures (exists r | r in Chunks(CHANNEL_BASE, ChannelBlockCount(channels)) :: Covers(r, channel))
            <==> channel != 7 && channel != 22
  {
    hide Chunks, Covers;
    var chunks := Chunks(CHANNEL_BASE, ChannelBlockCount(channels));
    var k := channel * 16 / 120;
    ChunkCount(CHANNEL_BASE, ChannelBlockCount(channels), k);
    ChunkCovers(channels, channel, k);
    if channel != 7 && channel != 22 {
      assert Covers(chunks[k], channel);
    }
    forall r | r in chunks && Covers(r, channel) ensures channel != 7 && channel != 22 {
      var j :| 0 <= j < |chunks| && chunks[j] == r;
      ChunkCovers(channels, channel, j);
    }
  }

  class Master {
    const client: TcpClient
    const unit: byte
    const channels: word
    var failStreak: nat
    var heartbeat: word

    constructor (client: TcpClient, unit: byte, channels: word)
      ensures this.client == client && this.unit == unit && this.channels == channels
      ensures failStreak == 0 && heartbeat == 1
    {
      this.client, this.unit, this.channels := client, unit, channels;
      failStreak, heartbeat := 0, 1;
    }

    method CountFailure()
      modifies `failStreak, client
      ensures failStreak == old(failStreak) + 1
      ensures client.connected == (old(client.connected) && old(failStreak) < 2)
      ensures client.nextTid == old(client.nextTid)
    {
      failStreak := failStreak + 1;
      if failStreak >= FAIL_THRESHOLD {
        client.Close();
      }
    }

    /**
     One turn of the poll loop on a connected client. With a bank of the size the card creates,
     a turn that goes through decodes exactly the card's registers, and one that does not has
     lost the connection.
     */
    method Poll(peer: RegisterBank) returns (ok: bool, samples: seq<ChannelSample>)
      requires 1 <= channels <= CHANNEL_MAX && client.connected && client.Clean()
      modifies this, client, client.up, client.down, peer
      ensures client.Clean()
      ensures peer.regs == old(peer.regs) ||
              (8 < |old(peer.regs)| && peer.regs == old(peer.regs)[8 := old(heartbeat)])
      ensures ok ==> BankSize(channels) <= |old(peer.regs)| && |samples| == channels
                     && forall ch: word | ch < channels ::
                          (BlocksTile(channels, ch); samples[ch] == DecodeChannel(Slice(old(peer.regs), ch)))
      ensures ok ==> failStreak == 0 && heartbeat == (old(heartbeat) + 1) % 65536
      ensures !ok ==> peer.regs == old(peer.regs) && heartbeat == old(heartbeat)
      ensures !ok ==> failStreak == old(failStreak) + 1 && (failStreak >= 3 ==> !client.connected)
      ensures |old(peer.regs)| >= BankSize(channels) && !ok ==> !client.connected
      ensures |old(peer.regs)| >= BankSize(channels) && client.Reliable() ==>
                ok && client.connected && peer.regs == old(peer.regs)[8 := old(heartbeat)]
    {
      samples := [];
      var info;
      ok, info := client.ReadHoldingRegisters(unit, 0, DEVICE_INFO_COUNT, peer);
      if !ok {
        CountFailure();
        return;
      }
      var values;
      ghost var requests;
      ok, values, requests := ReadChannels(client, unit, channels, peer);
      if !ok {
        CountFailure();
        return;
      }
      failStreak := 0;
      if |info| >= DEVICE_INFO_COUNT {
        var _ := client.WriteSingleRegister(unit, REG_HEARTBEAT, heartbeat, peer);
        heartbeat := (heartbeat + 1) % 65536;
      }
      samples := DecodeAll(values, channels);
      ghost var regs := old(peer.regs);
      forall ch: word | ch < channels
        ensures (BlocksTile(channels, ch); samples[ch] == DecodeChannel(Slice(regs, ch)))
      {
        SliceOfBlocks(regs, channels, ch);
      }
    }
  }

  /** Slicing and decoding the collected registers. */
  method DecodeAll(values: seq<word>, channels: word) returns (samples: seq<ChannelSample>)
    requires channels <= CHANNEL_MAX && |values| == channels * CHANNEL_STRIDE
    ensures |samples| == channels
    ensures forall ch | 0 <= ch < channels ::
              samples[ch] == DecodeChannel(values[ch * CHANNEL_STRIDE..ch * CHANNEL_STRIDE + CHANNEL_STRIDE])
  {
    samples := [];
    for ch := 0 to channels
      invariant |samples| == ch
      invariant forall k | 0 <= k < ch ::
                  samples[k] == DecodeChannel(values[k * CHANNEL_STRIDE..k * CHANNEL_STRIDE + CHANNEL_STRIDE])
    {
      var off := ch * CHANNEL_STRIDE;
      samples := samples + [DecodeChannel(values[off..off + CHANNEL_STRIDE])];
    }
  }

  /** The samples carry what the card measured at each channel. */
  ghost predicate AllFaithful(samples: seq<ChannelSample>, sines: seq<Sines>, count: uint32) {
    |samples| == |sines| &&
    forall ch: word | ch < |sines| :: Faithful(samples[ch], ClimateOf(ch, sines[ch]), count)
  }

  /**
   End to end: one sampling round of the card, then one turn of the master. A turn that goes
   through carries the climate of every channel, over reliable pipes it does, and one that does
   not has lost the connection.
   */
  method SampleAndPoll(master: Master, bank: RegisterBank, uptime: uint32, sines: seq<Sines>, count: uint32)
    returns (ok: bool, samples: seq<ChannelSample>)
    requires 1 <= master.channels <= CHANNEL_MAX && master.client.connected && master.client.Clean()
    requires |bank.regs| == BankSize(master.channels) && |sines| == master.channels
    requires forall k | 0 <= k < |sines| :: sines[k].Valid()
    modifies master, master.client, master.client.up, master.client.down, bank
    ensures master.client.Clean()
    ensures ok ==> AllFaithful(samples, sines, count)
    ensures !ok ==> !master.client.connected
    ensures master.client.Reliable() ==> ok
  {
    SampleAll(bank, master.channels, uptime, sines, count);
    ghost var regs := bank.regs;
    ok, samples := master.Poll(bank);
    if ok {
      forall ch: word | ch < master.channels ensures Faithful(samples[ch], ClimateOf(ch, sines[ch]), count) {
        SampledIsDecoded(regs, master.channels, sines, count, ch);
      }
    }
  }
}
