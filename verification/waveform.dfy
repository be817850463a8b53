/** Voice note waveforms: samples packed into 5 bits each (src/waveformmanager.cpp:11-40). */
module Waveforms {
  import opened Bits

  type Byte = x: nat | x < 256

  const MAX_SAMPLES: nat := 100

  /** The bits of a buffer, in the order samples are packed in: every byte's lowest bit first. */
  predicate DataBit(data: seq<Byte>, b: nat)
    requires b < 8 * |data|
  {
    Bit(data[b / 8], b % 8)
  }

  /** A conversion to int drops the fraction, of negative numbers too. */
  function Truncated(x: real): int {
    if x >= 0.0 then x.Floor else -(-x).Floor
  }

  /** The 5 bits kept of a sample: the lowest bits of the truncated 31-fold. */
  function Level(sample: real): (level: nat)
    ensures level < 32
    ensures 0.0 <= sample <= 1.0 ==> level == (sample * 31.0).Floor
  {
    Truncated(sample * 31.0) % 32
  }

  /** The data has the levels of the samples at consecutive slots of 5 bits, and no other bits. */
  ghost predicate Encodes(data: seq<Byte>, waveform: seq<real>) {
    && |data| == (5 * |waveform| + 7) / 8 + 1
    && forall b :: 0 <= b < 8 * |data| ==> DataBit(data, b) == SampleBit(waveform, b)
  }

  predicate SampleBit(waveform: seq<real>, b: nat) {
    b / 5 < |waveform| && Bit(Level(waveform[b / 5]), b % 5)
  }

  /** Byte number k of a little-endian word. */
  function ByteOf(word: nat, k: nat): Byte {
    FitsRange(Low(ShiftRight(word, 8 * k), 8));
    LowFits(ShiftRight(word, 8 * k), 8);
    Low(ShiftRight(word, 8 * k), 8)
  }

  lemma {:induction false} ByteOfBits(word: nat, k: nat, t: nat)
    requires t < 8
    ensures Bit(ByteOf(word, k), t) == Bit(word, 8 * k + t)
  {
    LowBits(ShiftRight(word, 8 * k), 8, t);
    ShiftRightBits(word, 8 * k, t);
  }

  /** A level shifted by less than a byte reaches into two bytes; the two upper ones of the word stay 0. */
  lemma {:induction false} TwoBytes(level: nat, shift: nat, k: nat)
    requires level < 32 && shift < 8 && k >= 2
    ensures ByteOf(ShiftLeft(level, shift), k) == 0
  {
    var byte := ByteOf(ShiftLeft(level, shift), k);
    FitsRange(byte);
    FitsRange(level);
    FitsMore(0, 0, 8);
    forall t | 0 <= t < 8 ensures Bit(byte, t) == Bit(0, t) {
      ByteOfBits(ShiftLeft(level, shift), k, t);
      ShiftLeftBits(level, shift, 8 * k + t);
      FitsBits(level, 5, 8 * k + t - shift);
      ZeroBits(t);
    }
    BitsDetermine(byte, 0, 8);
  }

  function OrByte(x: Byte, y: Byte): (r: Byte)
  {
    FitsRange(x);
    FitsRange(y);
    OrFits(x, y, 8);
    FitsRange(Or(x, y));
    Or(x, y)
  }

  lemma {:induction false} OrZero(x: nat)
    ensures Or(x, 0) == x
  {
    if x > 0 { OrZero(x / 2); }
  }

  /** The buffer after a level has been ORed in at a bit: two bytes change. */
  function Ored(data: seq<Byte>, bit: nat, level: nat): (r: seq<Byte>)
    requires bit / 8 + 1 < |data|
    ensures |r| == |data|
  {
    var at, word := bit / 8, ShiftLeft(level, bit % 8);
    data[at := OrByte(data[at], ByteOf(word, 0))][at + 1 := OrByte(data[at + 1], ByteOf(word, 1))]
  }

  lemma {:induction false} OredBits(data: seq<Byte>, bit: nat, level: nat, b: nat)
    requires bit / 8 + 1 < |data| && b < 8 * |data| && level < 32
    ensures DataBit(Ored(data, bit, level), b) == (DataBit(data, b) || (bit <= b && Bit(level, b - bit)))
  {
    var at, shift := bit / 8, bit % 8;
    var word := ShiftLeft(level, shift);
    var k, t := b / 8 - at, b % 8;
    FitsRange(level);
    if k == 0 || k == 1 {
      OrBits(data[b / 8], ByteOf(word, k), t);
      ByteOfBits(word, k, t);
      ShiftLeftBits(level, shift, 8 * k + t);
      assert 8 * k + t == b - 8 * at && bit == 8 * at + shift;
    } else if k > 1 {
      assert b - bit >= 5;
      FitsBits(level, 5, b - bit);
    }
  }

  /** An OR of a 32-bit word into memory, of which the buffer is a part; the two bytes that can lie behind the buffer
      are ORed with 0. */
  method OrWord(data: array<Byte>, bit: nat, level: nat)
    requires bit / 8 + 1 < data.Length && level < 32
    modifies data
    ensures data[..] == Ored(old(data[..]), bit, level)
  {
    var at, word := bit / 8, ShiftLeft(level, bit % 8);
    ghost var before := data[..];
    for k := 0 to 4
      invariant data[..]
              == if k == 0 then before
                 else if k == 1 then before[at := OrByte(before[at], ByteOf(word, 0))]
                 else Ored(before, bit, level)
    {
      if at + k < data.Length {
        if k >= 2 {
          TwoBytes(level, bit % 8, k);
          OrZero(data[at + k]);
        }
        data[at + k] := OrByte(data[at + k], ByteOf(word, k));
      }
    }
  }

  method EncodeWaveform(waveform: seq<real>) returns (data: array<Byte>)
    ensures fresh(data) && Encodes(data[..], waveform)
  {
    var numBits := 5 * |waveform|;
    data := new Byte[(numBits + 7) / 8 + 1](_ => 0);
    assert forall b :: 0 <= b < 8 * data.Length ==> !DataBit(data[..], b) by {
      forall b | 0 <= b < 8 * data.Length ensures !DataBit(data[..], b) {
        ZeroBits(b % 8);
      }
    }
    for i := 0 to |waveform|
      invariant fresh(data) && data.Length == (numBits + 7) / 8 + 1
      invariant forall b :: 0 <= b < 8 * data.Length ==> DataBit(data[..], b) == SampleBit(waveform[..i], b)
    {
      ghost var before := data[..];
      OrWord(data, 5 * i, Level(waveform[i]));
      forall b | 0 <= b < 8 * data.Length ensures DataBit(data[..], b) == SampleBit(waveform[..i + 1], b) {
        OredBits(before, 5 * i, Level(waveform[i]), b);
        NextSample(waveform, i, b);
      }
    }
    assert waveform[..|waveform|] == waveform;
  }

  lemma {:induction false} NextSample(waveform: seq<real>, i: nat, b: nat)
    requires i < |waveform|
    ensures SampleBit(waveform[..i + 1], b) == (SampleBit(waveform[..i], b) || (5 * i <= b
            && Bit(Level(waveform[i]), b - 5 * i)))
  {
    FitsRange(Level(waveform[i]));
    if b / 5 > i {
      FitsBits(Level(waveform[i]), 5, b - 5 * i);
    }
  }

  /** What is read at slot i: two bytes, the second one only if there is one. */
  function Slot(data: seq<Byte>, i: nat): (level: nat)
    requires 5 * i + 5 <= 8 * |data|
    ensures level < 32
  {
    var j, shift := 5 * i / 8, 5 * i % 8;
    var pair := Or(data[j], ShiftLeft(if j + 1 < |data| then data[j + 1] else 0, 8));
    LowFits(ShiftRight(pair, shift), 5);
    FitsRange(Low(ShiftRight(pair, shift), 5));
    Low(ShiftRight(pair, shift), 5)
  }

  lemma {:induction false} SlotBits(data: seq<Byte>, i: nat, t: nat)
    requires 5 * i + 5 <= 8 * |data| && t < 5
    ensures Bit(Slot(data, i), t) == DataBit(data, 5 * i + t)
  {
    var j, shift := 5 * i / 8, 5 * i % 8;
    var second: Byte := if j + 1 < |data| then data[j + 1] else 0;
    var pair := Or(data[j], ShiftLeft(second, 8));
    LowBits(ShiftRight(pair, shift), 5, t);
    ShiftRightBits(pair, shift, t);
    OrBits(data[j], ShiftLeft(second, 8), t + shift);
    ShiftLeftBits(second, 8, t + shift);
    FitsRange(data[j]);
    if t + shift >= 8 {
      FitsBits(data[j], 8, t + shift);
      assert (5 * i + t) / 8 == j + 1 && (5 * i + t) % 8 == t + shift - 8;
    } else {
      assert (5 * i + t) / 8 == j && (5 * i + t) % 8 == t + shift;
    }
  }

  /** As many whole slots as there are, at most MAX_SAMPLES. */
  function SlotCount(data: seq<Byte>): nat {
    8 * |data| / 5
  }

  function Decoded(data: seq<Byte>): (samples: seq<real>)
    ensures |samples| == if SlotCount(data) < MAX_SAMPLES then SlotCount(data) else MAX_SAMPLES
  {
    seq(if SlotCount(data) < MAX_SAMPLES then SlotCount(data) else MAX_SAMPLES,
        i requires 0 <= i < SlotCount(data) => Slot(data, i) as real / 31.0)
  }

  method DecodeWaveform(waveform: seq<Byte>) returns (result: seq<real>)
    ensures result == Decoded(waveform)
  {
    result := [];
    for i := 0 to SlotCount(waveform)
      invariant |result| == i
      invariant forall k :: 0 <= k < i ==> result[k] == Slot(waveform, k) as real / 31.0
    {
      result := result + [Slot(waveform, i) as real / 31.0];
    }
    result := if |result| < MAX_SAMPLES then result else result[..MAX_SAMPLES];
  }

  lemma {:induction false} EncodedSlot(data: seq<Byte>, waveform: seq<real>, i: nat)
    requires Encodes(data, waveform) && i < SlotCount(data)
    ensures Slot(data, i) == if i < |waveform| then Level(waveform[i]) else 0
  {
    var level := if i < |waveform| then Level(waveform[i]) else 0;
    FitsRange(Slot(data, i));
    FitsRange(level);
    forall t | 0 <= t < 5 ensures Bit(Slot(data, i), t) == Bit(level, t) {
      SlotBits(data, i, t);
      assert DataBit(data, 5 * i + t) == SampleBit(waveform, 5 * i + t);
      assert (5 * i + t) / 5 == i && (5 * i + t) % 5 == t;
      ZeroBits(t);
    }
    BitsDetermine(Slot(data, i), level, 5);
  }

  /** Decoding an encoding gives every sample rounded down to a multiple of 1/31, and zeros behind them. */
  lemma {:induction false} RoundTrip(data: seq<Byte>, waveform: seq<real>)
    requires Encodes(data, waveform)
    requires forall k :: 0 <= k < |waveform| ==> 0.0 <= waveform[k] <= 1.0
    ensures |waveform| <= MAX_SAMPLES ==> |waveform| <= |Decoded(data)|
    ensures |waveform| >= MAX_SAMPLES ==> |Decoded(data)| == MAX_SAMPLES
    ensures forall i :: 0 <= i < |Decoded(data)| ==>
              Decoded(data)[i] == if i < |waveform| then (waveform[i] * 31.0).Floor as real / 31.0 else 0.0
  {
    forall i | 0 <= i < |Decoded(data)|
      ensures Decoded(data)[i] == if i < |waveform| then (waveform[i] * 31.0).Floor as real / 31.0 else 0.0
    {
      EncodedSlot(data, waveform, i);
    }
  }

  /** Encoding decoded data again reproduces every whole slot, up to the length at which slots are cut off. */
  lemma {:induction false} ReencodingKeepsSlots(data: seq<Byte>, again: seq<Byte>)
    requires |data| <= 63 && Encodes(again, Decoded(data))
    ensures |data| <= |again|
    ensures forall b :: 0 <= b < 8 * |again| ==>
              DataBit(again, b) == (b < 5 * SlotCount(data) && DataBit(data, b))
  {
    forall b | 0 <= b < 8 * |again| ensures DataBit(again, b) == (b < 5 * SlotCount(data) && DataBit(data, b)) {
      assert DataBit(again, b) == SampleBit(Decoded(data), b);
      DecodedBit(data, b);
    }
  }

  lemma {:induction false} DecodedBit(data: seq<Byte>, b: nat)
    requires |data| <= 63
    ensures SampleBit(Decoded(data), b) == (b < 5 * SlotCount(data) && DataBit(data, b))
  {
    if b < 5 * SlotCount(data) {
      LevelOfSlot(Slot(data, b / 5));
      SlotBits(data, b / 5, b % 5);
    }
  }

  lemma {:induction false} LevelOfSlot(level: nat)
    requires level < 32
    ensures Level(level as real / 31.0) == level
  {
    assert level as real / 31.0 * 31.0 == level as real;
  }
}
