/** The IO card's registers and the master's samples in the numbers of the register map. */
module FieldBehaviour {
  import opened ModbusFrames
  import opened AgriRegisters
  import opened AgriIoCard
  import opened FieldMaster

  /** The blocks of channels 0 to 31 start at 256, sixteen registers apart; the bank ends with the last one. */
  lemma RegisterMap(channel: word)
    requires channel <= 32
    ensures ChannelBase(channel) == BankSize(channel) == 256 + 16 * channel
    ensures ChannelBlockCount(channel) == 16 * channel
  {
  }

  // ------------------------------------------------------------ numbers in registers

  /** A register of signed tenths: two's complement. */
  lemma SignedTenths(v: int)
    requires -32768 <= v <= 32767
    ensures -32769.0 < v as real / 10.0 * 10.0 < 32768.0
    ensures EncodeSigned(v as real / 10.0) == if v < 0 then v + 65536 else v
    ensures DecodeSigned(if v < 0 then v + 65536 else v) == v as real / 10.0
  {
    assert v as real / 10.0 * 10.0 == v as real;
    if v < 0 {
      assert (v + 65536) - 65536 == v;
    }
  }

  lemma UnsignedTenths(v: word)
    ensures -1.0 < v as real / 10.0 * 10.0 < 65536.0
    ensures EncodeUnsigned(v as real / 10.0) == v && DecodeUnsigned(v) == v as real / 10.0
  {
    assert v as real / 10.0 * 10.0 == v as real;
  }

  /** A 32-bit counter in two registers, the low half first. */
  lemma Halves(lo: word, hi: word)
    ensures PackLow(65536 * hi + lo) == lo && PackHigh(65536 * hi + lo) == hi
    ensures Unpack(lo, hi) == 65536 * hi + lo
  {
  }

  // ------------------------------------------------------------ what the master decodes

  /** From signed tenths in registers 0 and 4, unsigned ones in 1 and 3, lux in 2 and the counter in 7 and 8. */
  lemma DecodedValues(block: seq<word>, temp: int, soilTemp: int)
    requires |block| >= 16 && -32768 <= temp <= 32767 && -32768 <= soilTemp <= 32767
    requires block[0] == (if temp < 0 then temp + 65536 else temp)
    requires block[4] == (if soilTemp < 0 then soilTemp + 65536 else soilTemp)
    ensures var d := DecodeChannel(block);
            && d.temp == temp as real / 10.0 && d.soilTemp == soilTemp as real / 10.0
            && d.humidity == block[1] as real / 10.0 && d.soil == block[3] as real / 10.0
            && d.lux == block[2] as real
            && d.count == 65536 * (block[8] as int) + block[7]
            && d.quality == block[6]
  {
    hide DecodeSigned, EncodeSigned;
    SignedTenths(temp);
    SignedTenths(soilTemp);
  }

  /** Register 6 by its bits: a channel is usable when bit 0, good, is set and bit 5, communication lost, is not. */
  lemma DecodedQuality(block: seq<word>, good: nat, middle: nat, lost: nat, high: nat)
    requires |block| >= 16 && good < 2 && middle < 16 && lost < 2
    requires block[6] == good + 2 * middle + 32 * lost + 64 * high
    ensures DecodeChannel(block).ok <==> good == 1 && lost == 0
  {
    hide DecodeSigned, DecodeUnsigned, Unpack;
    assert block[6] / 32 == lost + 2 * high;
  }

  /** A slice that is too short gives nothing. */
  lemma DecodedShort(block: seq<word>)
    requires |block| < 16
    ensures DecodeChannel(block) == ChannelSample(0.0, 0.0, 0.0, 0.0, 0.0, 0, 0, false)
  {
  }

  // ------------------------------------------------------------ what the card writes

  /** All sines at one value. */
  function Level(x: real): Sines {
    Sines(x, x, x, x, x)
  }

  /** The registers of a channel at the middle of every swing. */
  lemma BlockAtRest(channel: word, count: uint32)
    requires channel < 32
    ensures var c := channel; var climate := ClimateOf(c, Level(0.0));
            && 0.0 < climate.temp < 100.0 && 0.0 < climate.humidity < 100.0
            && 0.0 < climate.moisture < 100.0 && 0.0 < climate.soilTemp < 100.0
            && Block(climate, count) ==
               [220 + 3 * c, 500 + 10 * c, 8000 + 200 * c, if c == 0 then 350 else 400 + 10 * c, 180 + 5 * c,
                0, 1, count % 65536, count / 65536, 0]
  {
    hide EncodeSigned, EncodeUnsigned, PackLow, PackHigh;
    ClimateFits(channel, Level(0.0));
    var c, climate := channel, ClimateOf(channel, Level(0.0));
    SignedTenths(220 + 3 * c);
    UnsignedTenths(500 + 10 * c);
    UnsignedTenths(if c == 0 then 350 else 400 + 10 * c);
    SignedTenths(180 + 5 * c);
    Halves(count % 65536, count / 65536);
    assert climate.temp == (220 + 3 * c) as real / 10.0;
    assert climate.humidity == (500 + 10 * c) as real / 10.0;
    assert climate.moisture == (if c == 0 then 350 else 400 + 10 * c) as real / 10.0;
    assert climate.soilTemp == (180 + 5 * c) as real / 10.0;
    assert climate.lux == (8000 + 200 * c) as real;
  }

  /** How far each value swings. */
  lemma Swings(channel: word, s: Sines)
    requires channel < 32
    ensures var c, rest := ClimateOf(channel, s), ClimateOf(channel, Level(0.0));
            && c.temp - rest.temp == 2.0 * s.temp && c.humidity - rest.humidity == 8.0 * s.humidity
            && c.lux - rest.lux == 3000.0 * s.lux && c.soilTemp - rest.soilTemp == s.soilTemp
            && c.moisture - rest.moisture == (if channel == 0 then 25.0 else 10.0) * s.moisture
  {
  }

  /** After a sampling round, the registers of each channel from 256 + 16 * channel on. */
  lemma SampledRegisters(regs: seq<word>, n: word, sines: seq<Sines>, count: uint32, channel: word)
    requires n <= 32 && |sines| == n && (forall k | 0 <= k < n :: sines[k].Valid())
    requires Sampled(regs, n, sines, count) && channel < n
    ensures var base, c := 256 + 16 * channel, ClimateOf(channel, sines[channel]);
            && |regs| == 256 + 16 * n
            && -32769.0 < c.temp * 10.0 < 32768.0 && regs[base] == EncodeSigned(c.temp)
            && -1.0 < c.humidity * 10.0 < 65536.0 && regs[base + 1] == EncodeUnsigned(c.humidity)
            && regs[base + 2] == c.lux.Floor
            && -1.0 < c.moisture * 10.0 < 65536.0 && regs[base + 3] == EncodeUnsigned(c.moisture)
            && -32769.0 < c.soilTemp * 10.0 < 32768.0 && regs[base + 4] == EncodeSigned(c.soilTemp)
            && regs[base + 5] == 0 && regs[base + 6] == 1
            && regs[base + 7] == count % 65536 && regs[base + 8] == count / 65536 && regs[base + 9] == 0
  {
    hide ClimateOf, EncodeSigned, EncodeUnsigned;
    RegisterMap(n);
    RegisterMap(channel);
    ClimateFits(channel, sines[channel]);
    assert ChannelSampled(regs, channel, sines[channel], count);
    Halves(count % 65536, count / 65536);
    var base := 256 + 16 * channel;
    var block := regs[base..base + 10];
    assert block[0] == regs[base] && block[1] == regs[base + 1] && block[2] == regs[base + 2];
    assert block[3] == regs[base + 3] && block[4] == regs[base + 4] && block[5] == regs[base + 5];
    assert block[6] == regs[base + 6] && block[7] == regs[base + 7] && block[8] == regs[base + 8];
    assert block[9] == regs[base + 9];
  }
}
