/** The OE-AFP register map: addresses, scaling and the packing of 32-bit counters. */
module AgriRegisters {
  import opened ModbusFrames

  const PROTO_MAGIC: word := 0xAE01
  const PROTO_VERSION: word := 0x0100
  const DEVICE_IO_CARD: word := 1
  const CAP_DEMO_DEFAULT: word := 31

  const REG_PROTO_MAGIC := 0
  const REG_PROTO_VERSION := 1
  const REG_DEVICE_CLASS := 2
  const REG_CHANNEL_COUNT := 3
  const REG_CAPS_BITS := 4
  const REG_STATUS_BITS := 5
  const REG_UPTIME_LO := 6
  const REG_UPTIME_HI := 7
  const REG_HEARTBEAT: word := 8
  const REG_SAMPLE_PERIOD_MS := 9
  const REG_LAST_ERROR := 10
  const DEVICE_INFO_COUNT: word := 16
  const DEFAULT_POLL_PERIOD_MS: word := 500

  const CHANNEL_BASE := 0x0100
  const CHANNEL_STRIDE := 0x0010
  const CHANNEL_MAX := 32

  const OFF_AIR_TEMP := 0
  const OFF_AIR_HUMIDITY := 1
  const OFF_ILLUMINANCE := 2
  const OFF_SOIL_MOISTURE := 3
  const OFF_SOIL_TEMP := 4
  const OFF_CO2 := 5
  const OFF_QUALITY := 6
  const OFF_SEQ_LO := 7
  const OFF_SEQ_HI := 8
  const OFF_AGE_MS := 9

  function ChannelBase(channel: word): word {
    (CHANNEL_BASE + channel * CHANNEL_STRIDE) % 65536
  }

  function ChannelBlockCount(channels: word): word {
    (channels * CHANNEL_STRIDE) % 65536
  }

  function BankSize(channels: word): (n: nat)
    ensures n < 65536
  {
    ChannelBase(channels)
  }

  /** The blocks of up to 32 channels lie one after another behind the device info, up to the end of the bank. */
  lemma BlocksTile(channels: word, channel: word)
    requires channel < channels <= CHANNEL_MAX
    ensures ChannelBase(0) == 0x100 && ChannelBase(channel + 1) == ChannelBase(channel) + CHANNEL_STRIDE
    ensures ChannelBase(channel) + CHANNEL_STRIDE <= BankSize(channels) == CHANNEL_BASE + ChannelBlockCount(channels)
  {
  }

  // ------------------------------------------------------------ numbers in registers

  /** The conversion from floating point to an integer type: toward zero. */
  function Truncated(x: real): int {
    if x >= 0.0 then x.Floor else -(-x).Floor
  }

  /** A 16-bit register keeps the low 16 bits of a signed number. */
  function ToWord(v: int): word {
    v % 65536
  }

  function ToInt16(w: word): int {
    if w < 32768 then w else w - 65536
  }

  /** Outside this range the conversion is undefined in C++. */
  function EncodeSigned(x: real): (w: word)
    requires -32769.0 < x * 10.0 < 32768.0
  {
    ToWord(Truncated(x * 10.0))
  }

  function DecodeSigned(w: word): real {
    ToInt16(w) as real / 10.0
  }

  function EncodeUnsigned(x: real): (w: word)
    requires -1.0 < x * 10.0 < 65536.0
  {
    Truncated(x * 10.0)
  }

  function DecodeUnsigned(w: word): real {
    w as real / 10.0
  }

  /** A decoded value is less than a tenth closer to zero than what was encoded. */
  predicate Tenth(decoded: real, x: real) {
    if x >= 0.0 then x - 0.1 < decoded <= x else x <= decoded < x + 0.1
  }

  lemma SignedRoundTrip(x: real)
    requires -32769.0 < x * 10.0 < 32768.0
    ensures Tenth(DecodeSigned(EncodeSigned(x)), x)
  {
    var v := Truncated(x * 10.0);
    assert -32768 <= v <= 32767;
    assert ToInt16(ToWord(v)) == v;
  }

  lemma UnsignedRoundTrip(x: real)
    requires -1.0 < x * 10.0 < 65536.0
    ensures Tenth(DecodeUnsigned(EncodeUnsigned(x)), x)
  {
  }

  type uint32 = x: int | 0 <= x < 0x1_0000_0000

  function PackLow(v: uint32): word {
    v % 0x10000
  }

  function PackHigh(v: uint32): word {
    v / 0x10000 % 0x10000
  }

  function Unpack(lo: word, hi: word): uint32 {
    hi * 0x10000 + lo
  }

  lemma PackRoundTrip(v: uint32)
    ensures Unpack(PackLow(v), PackHigh(v)) == v
  {
  }
}

/** The mock IO card: what it stores in its register bank. */
module AgriIoCard {
  import opened ModbusFrames
  import opened ModbusTcp
  import opened AgriRegisters

  /** The values std::sin returns for one channel sample: air, humidity, light, soil moisture, soil temperature. */
  datatype Sines = Sines(temp: real, humidity: real, lux: real, moisture: real, soilTemp: real) {
    predicate Valid() {
      && -1.0 <= temp <= 1.0 && -1.0 <= humidity <= 1.0 && -1.0 <= lux <= 1.0
      && -1.0 <= moisture <= 1.0 && -1.0 <= soilTemp <= 1.0
    }
  }

  datatype Climate = Climate(temp: real, humidity: real, lux: real, moisture: real, soilTemp: real)

  /** The simulated climate at a channel. */
  function ClimateOf(channel: word, s: Sines): Climate {
    var c := channel as real;
    Climate(
      22.0 + c * 0.3 + 2.0 * s.temp,
      50.0 + c + 8.0 * s.humidity,
      8000.0 + c * 200.0 + 3000.0 * s.lux,
      if channel == 0 then 35.0 + 25.0 * s.moisture else 40.0 + c + 10.0 * s.moisture,
      18.0 + 0.5 * c + s.soilTemp)
  }

  lemma ClimateFits(channel: word, s: Sines)
    requires channel < CHANNEL_MAX && s.Valid()
    ensures var c := ClimateOf(channel, s);
            && 0.0 < c.temp < 100.0 && 0.0 < c.humidity < 100.0 && 0.0 < c.lux < 65535.0
            && 0.0 < c.moisture < 100.0 && 0.0 < c.soilTemp < 100.0
  {
    assert 0.0 <= channel as real <= 31.0;
  }

  function ClampLux(lux: real): real {
    var positive := if 0.0 < lux then lux else 0.0;
    if positive < 65535.0 then positive else 65535.0
  }

  const QUALITY_GOOD: word := 1

  /** The ten registers written for one channel. */
  function Block(c: Climate, count: uint32): (b: seq<word>)
    requires 0.0 < c.temp < 100.0 && 0.0 < c.humidity < 100.0 && 0.0 < c.moisture < 100.0 && 0.0 < c.soilTemp < 100.0
    ensures |b| == 10
  {
    [EncodeSigned(c.temp), EncodeUnsigned(c.humidity), Truncated(ClampLux(c.lux)), EncodeUnsigned(c.moisture),
     EncodeSigned(c.soilTemp), 0, QUALITY_GOOD, PackLow(count), PackHigh(count), 0]
  }

  /** What the bank of n channels holds after one round of sampling. */
  ghost predicate Sampled(regs: seq<word>, n: word, sines: seq<Sines>, count: uint32)
    requires n <= CHANNEL_MAX && |sines| == n && forall k | 0 <= k < n :: sines[k].Valid()
  {
    && |regs| == BankSize(n)
    && forall ch: word | ch < n :: ChannelSampled(regs, ch, sines[ch], count)
  }

  ghost predicate ChannelSampled(regs: seq<word>, channel: word, s: Sines, count: uint32)
    requires channel < CHANNEL_MAX && s.Valid()
  {
    ClimateFits(channel, s);
    && ChannelBase(channel) + 10 <= |regs|
    && regs[ChannelBase(channel)..ChannelBase(channel) + 10] == Block(ClimateOf(channel, s), count)
  }

  method WriteDeviceInfo(bank: RegisterBank, channels: word, uptime: uint32)
    requires |bank.regs| >= 11
    modifies bank
    ensures |bank.regs| == |old(bank.regs)|
    ensures bank.regs[..8] == [0xAE01, 0x0100, 1, channels, 31, 0, uptime % 65536, uptime / 65536]
    ensures bank.regs[8] == old(bank.regs)[8]
    ensures bank.regs[9] == if old(bank.regs)[9] == 0 then 500 else old(bank.regs)[9]
    ensures bank.regs[10] == 0
    ensures bank.regs[11..] == old(bank.regs)[11..]
  {
    var regs := bank.regs;
    regs := regs[REG_PROTO_MAGIC := PROTO_MAGIC];
    regs := regs[REG_PROTO_VERSION := PROTO_VERSION];
    regs := regs[REG_DEVICE_CLASS := DEVICE_IO_CARD];
    regs := regs[REG_CHANNEL_COUNT := channels];
    regs := regs[REG_CAPS_BITS := CAP_DEMO_DEFAULT];
    regs := regs[REG_STATUS_BITS := 0];
    regs := regs[REG_UPTIME_LO := PackLow(uptime)];
    regs := regs[REG_UPTIME_HI := PackHigh(uptime)];
    if regs[REG_SAMPLE_PERIOD_MS] == 0 {
      regs := regs[REG_SAMPLE_PERIOD_MS := DEFAULT_POLL_PERIOD_MS];
    }
    regs := regs[REG_LAST_ERROR := 0];
    bank.regs := regs;
  }

  method WriteChannelSample(bank: RegisterBank, channel: word, s: Sines, count: uint32)
    requires channel < CHANNEL_MAX && s.Valid() && ChannelBase(channel) + CHANNEL_STRIDE <= |bank.regs|
    modifies bank
    ensures |bank.regs| == |old(bank.regs)|
    ensures ChannelSampled(bank.regs, channel, s, count)
    ensures var base := ChannelBase(channel);
            bank.regs[..base] == old(bank.regs)[..base] && bank.regs[base + 10..] == old(bank.regs)[base + 10..]
  {
    ClimateFits(channel, s);
    hide EncodeSigned, EncodeUnsigned, PackLow, PackHigh, ClimateOf;
    var c, base, regs := ClimateOf(channel, s), ChannelBase(channel), bank.regs;
    regs := regs[base + OFF_AIR_TEMP := EncodeSigned(c.temp)];
    regs := regs[base + OFF_AIR_HUMIDITY := EncodeUnsigned(c.humidity)];
    regs := regs[base + OFF_ILLUMINANCE := Truncated(ClampLux(c.lux))];
    regs := regs[base + OFF_SOIL_MOISTURE := EncodeUnsigned(c.moisture)];
    regs := regs[base + OFF_SOIL_TEMP := EncodeSigned(c.soilTemp)];
    regs := regs[base + OFF_CO2 := 0];
    regs := regs[base + OFF_QUALITY := QUALITY_GOOD];
    regs := regs[base + OFF_SEQ_LO := PackLow(count)];
    regs := regs[base + OFF_SEQ_HI := PackHigh(count)];
    regs := regs[base + OFF_AGE_MS := 0];
    bank.regs := regs;
  }

  lemma EarlierChannelKept(before: seq<word>, after: seq<word>, k: word, ch: word, s: Sines, count: uint32)
    requires k < ch < CHANNEL_MAX && s.Valid() && ChannelBase(ch) <= |before| == |after|
    requires ChannelSampled(before, k, s, count) && after[..ChannelBase(ch)] == before[..ChannelBase(ch)]
    ensures ChannelSampled(after, k, s, count)
  {
    hide Block, ClimateOf;
    var from, to, base := ChannelBase(k), ChannelBase(k) + 10, ChannelBase(ch);
    assert after[..base][from..to] == after[from..to] && before[..base][from..to] == before[from..to];
  }

  /** One round of the sampler thread. */
  method SampleAll(bank: RegisterBank, channels: word, uptime: uint32, sines: seq<Sines>, count: uint32)
    requires channels <= CHANNEL_MAX && |sines| == channels && |bank.regs| == BankSize(channels)
    requires forall k | 0 <= k < channels :: sines[k].Valid()
    modifies bank
    ensures Sampled(bank.regs, channels, sines, count)
  {
    hide Block, ClimateOf, ChannelSampled;
    WriteDeviceInfo(bank, channels, uptime);
    for ch := 0 to channels
      invariant |bank.regs| == BankSize(channels)
      invariant forall k: word | k < ch :: ChannelSampled(bank.regs, k, sines[k], count)
    {
      ghost var before := bank.regs;
      WriteChannelSample(bank, ch, sines[ch], count);
      forall k: word | k < ch ensures ChannelSampled(bank.regs, k, sines[k], count) {
        EarlierChannelKept(before, bank.regs, k, ch, sines[k], count);
      }
    }
  }
}
