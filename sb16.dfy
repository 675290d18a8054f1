/** The double-buffered Sound Blaster 16 player of drivers/sb16.c: two
    4096-byte DMA buffers refilled from the audio data on each interrupt,
    with unsigned 8-bit silence (0x80) after the end of the data. The bytes
    sent to the DSP and the reset, mixer and end-of-interrupt port writes
    appear as traces; dma_setup (drivers/dma.c, not part of this model) as a
    trace of the buffers handed to the DMA controller. */
module Sb16 {
  import opened Machine

  const BUFFER_SIZE: nat := 4096
  const SILENCE: Byte := 0x80

  const DSP_RESET: Word16 := 0x226
  const DSP_WRITE_CMD: Word16 := 0x22C
  const MIXER_ADDR: Word16 := 0x224
  const MIXER_DATA: Word16 := 0x225
  const PIC_COMMAND: Word16 := 0x20
  const PIC_EOI: Byte := 0x20

  const DEFAULT_RATE: Word16 := 22050
  const MIN_RATE: Word16 := 5000
  const MAX_RATE: Word16 := 48000

  /** set_sample_rate: command 0x41, then the rate high byte first. */
  function RateCommands(rate: Word16): seq<Byte>
  {
    [0x41, rate / 0x100, rate % 0x100]
  }

  /** The DSP reassembles the rate from the two bytes, high byte first. */
  lemma RateCommandsCarryRate(rate: Word16)
    ensures var c := RateCommands(rate);
            |c| == 3 && c[0] == 0x41 && (c[1] as int) * 0x100 + c[2] as int == rate
  {
  }

  /** start_playback: the output command, the length low byte first, and
      speaker on. */
  function StartCommands(bufSize: Word16): seq<Byte>
  {
    [0xC0, 0x00, 0x10, bufSize % 0x100, bufSize / 0x100, 0xD1]
  }

  /** The length travels low byte first, and the speaker is turned on
      last. */
  lemma StartCommandsCarryLength(bufSize: Word16)
    ensures var c := StartCommands(bufSize);
            |c| == 6 && c[3] as int + (c[4] as int) * 0x100 == bufSize && c[5] == 0xD1
  {
  }

  /** The restart the interrupt handler sends: command 0x10 and the
      buffer length, low byte first. */
  const RESTART_COMMANDS: seq<Byte> := [0x10, BUFFER_SIZE % 0x100, BUFFER_SIZE / 0x100]

  /** sb16_stop: pause DMA, then speaker off. */
  const STOP_COMMANDS: seq<Byte> := [0xD0, 0xD3]

  /** set_mixer_volume: master, voice, and the two legacy volume
      registers, all to `volume`. */
  function MixerWrites(volume: Byte): seq<PortOut>
  {
    [Outb(MIXER_ADDR, 0x22), Outb(MIXER_DATA, volume), Outb(MIXER_ADDR, 0x24), Outb(MIXER_DATA, volume),
     Outb(MIXER_ADDR, 0x04), Outb(MIXER_DATA, volume), Outb(MIXER_ADDR, 0x05), Outb(MIXER_DATA, volume)]
  }

  /** The number of bytes fill_buffer copies from the audio data. */
  function Copied(data: Option<seq<Byte>>, audioSize: nat, pos: nat, size: nat): (n: nat)
    ensures n <= size
    ensures n > 0 ==> data.Some? && pos + n <= audioSize
  {
    if data.Some? && pos < audioSize then
      if pos + size > audioSize then audioSize - pos else size
    else 0
  }

  function Silence(n: nat): (s: seq<Byte>)
    ensures |s| == n && forall j :: 0 <= j < n ==> s[j] == SILENCE
  {
    seq(n, _ => SILENCE)
  }

  /** The bytes fill_buffer leaves in a buffer of `size` bytes: the data
      from `pos` on, as much as Copied allows, then silence. */
  function Chunk(data: Option<seq<Byte>>, audioSize: nat, pos: nat, size: nat): (c: seq<Byte>)
    requires data.Some? ==> audioSize <= |data.value|
    ensures |c| == size
  {
    var n := Copied(data, audioSize, pos, size);
    (if n == 0 then [] else data.value[pos..pos + n]) + Silence(size - n)
  }

  /** Byte j of a chunk is data byte pos + j while the data lasts, and
      silence after it. */
  lemma ChunkAt(data: Option<seq<Byte>>, audioSize: nat, pos: nat, size: nat, j: nat)
    requires data.Some? ==> audioSize <= |data.value|
    requires j < size
    ensures var n := Copied(data, audioSize, pos, size);
            Chunk(data, audioSize, pos, size)[j] == if j < n then data.value[pos + j] else SILENCE
  {
  }

  /** fill_buffer's copy loop: `buf[i] = audio_data[audio_position++]`
      for n bytes from `from`. */
  method CopyData(buf: array<Byte>, data: seq<Byte>, from: nat, n: nat)
    requires n <= buf.Length && from + n <= |data|
    modifies buf
    ensures forall j :: 0 <= j < n ==> buf[j] == data[from + j]
    ensures forall j :: n <= j < buf.Length ==> buf[j] == old(buf[j])
  {
    var i := 0;
    while i < n
      invariant i <= n
      invariant forall j :: 0 <= j < i ==> buf[j] == data[from + j]
      invariant forall j :: n <= j < buf.Length ==> buf[j] == old(buf[j])
    {
      buf[i] := data[from + i];
      i := i + 1;
    }
  }

  /** fill_buffer's silence loop: bytes [from, to) become 0x80. */
  method FillSilence(buf: array<Byte>, from: nat, to: nat)
    requires from <= to <= buf.Length
    modifies buf
    ensures forall j :: from <= j < to ==> buf[j] == SILENCE
    ensures forall j :: 0 <= j < from || to <= j < buf.Length ==> buf[j] == old(buf[j])
  {
    var i := from;
    while i < to
      invariant from <= i <= to
      invariant forall j :: from <= j < i ==> buf[j] == SILENCE
      invariant forall j :: 0 <= j < from || to <= j < buf.Length ==> buf[j] == old(buf[j])
    {
      buf[i] := SILENCE;
      i := i + 1;
    }
  }

  /** A buffer holding the copied data bytes and then silence holds the
      chunk. */
  lemma ChunkFilled(b: seq<Byte>, data: Option<seq<Byte>>, audioSize: nat, pos: nat, size: nat)
    requires data.Some? ==> audioSize <= |data.value|
    requires size <= |b|
    requires forall j :: 0 <= j < Copied(data, audioSize, pos, size) ==> b[j] == data.value[pos + j]
    requires forall j :: Copied(data, audioSize, pos, size) <= j < size ==> b[j] == SILENCE
    ensures b[..size] == Chunk(data, audioSize, pos, size)
  {
    forall j | 0 <= j < size
      ensures b[j] == Chunk(data, audioSize, pos, size)[j]
    {
      ChunkAt(data, audioSize, pos, size, j);
    }
  }

  /** fill_buffer copies min(size, audio_size - pos) bytes when there is
      data left, and none otherwise. */
  lemma CopiedIsMin(data: Option<seq<Byte>>, audioSize: nat, pos: nat, size: nat)
    ensures data.Some? && pos < audioSize ==> Copied(data, audioSize, pos, size) == Min(size, audioSize - pos)
    ensures !(data.Some? && pos < audioSize) ==> Copied(data, audioSize, pos, size) == 0
  {
  }

  /** Whether the interrupt handler stops playback: the data is exhausted
      and there was some. */
  predicate Finished(pos: nat, audioSize: nat)
  {
    pos >= audioSize && audioSize > 0
  }

  /** With a size of 0 the handler never stops on its own, whatever the
      data; with data of positive size it stops exactly when the data is
      used up. */
  lemma FinishedOnlyWithData(data: Option<seq<Byte>>, pos: nat, audioSize: nat)
    requires pos <= audioSize
    ensures audioSize == 0 ==> !Finished(pos + Copied(data, audioSize, pos, BUFFER_SIZE), audioSize)
    ensures data.Some? && audioSize > 0 ==>
              (Finished(pos + Copied(data, audioSize, pos, BUFFER_SIZE), audioSize) <==> audioSize - pos <= BUFFER_SIZE)
  {
  }

  /** The playback state of drivers/sb16.c. */
  class Player {
    const buffer1: array<Byte>
    const buffer2: array<Byte>
    var activeBuffer: int
    var playbackActive: bool
    var audioData: Option<seq<Byte>>
    var audioSize: Word32
    var audioPosition: Word32
    /** The bytes dsp_write sends to the DSP write port, in order (the
        busy wait before each is not modelled). */
    var dsp: seq<Byte>
    /** The other port writes: DSP reset, mixer and end of interrupt. */
    var ports: seq<PortOut>
    /** The buffers handed to dma_setup, 0 for buffer1 and 1 for buffer2. */
    var dma: seq<int>

    /** The two buffers are distinct and full-size, the active one is 0 or
        1, the data holds audio_size bytes, and the position never passes
        the size. */
    predicate Valid()
      reads this
    {
      buffer1.Length == BUFFER_SIZE && buffer2.Length == BUFFER_SIZE && buffer1 != buffer2
      && (activeBuffer == 0 || activeBuffer == 1)
      && (audioData.Some? ==> audioSize <= |audioData.value|)
      && audioPosition <= audioSize
    }

    function Buffer(i: int): array<Byte>
      reads this
    {
      if i == 0 then buffer1 else buffer2
    }

    /** The statics as the program loads them. */
    constructor (b1: array<Byte>, b2: array<Byte>)
      requires b1.Length == BUFFER_SIZE && b2.Length == BUFFER_SIZE && b1 != b2
      ensures buffer1 == b1 && buffer2 == b2 && Valid()
      ensures activeBuffer == 0 && !playbackActive && audioData == None && audioSize == 0 && audioPosition == 0
      ensures dsp == [] && ports == [] && dma == []
    {
      buffer1, buffer2 := b1, b2;
      activeBuffer := 0;
      playbackActive := false;
      audioData := None;
      audioSize, audioPosition := 0, 0;
      dsp, ports, dma := [], [], [];
    }

    /** fill_buffer: the buffer's first `size` bytes become the next
        chunk of the audio data, and the position moves past what was
        copied. */
    method FillBuffer(buf: array<Byte>, size: nat)
      requires Valid() && (buf == buffer1 || buf == buffer2) && size <= BUFFER_SIZE
      modifies buf, this`audioPosition
      ensures audioPosition == old(audioPosition) + Copied(audioData, audioSize, old(audioPosition), size)
      ensures buf[..size] == Chunk(audioData, audioSize, old(audioPosition), size)
      ensures buf[size..] == old(buf[size..])
      ensures Valid()
    {
      ghost var pos0 := audioPosition;
      var n := size;
      if audioData.Some? && audioPosition < audioSize {
        if audioPosition + size > audioSize {
          n := audioSize - audioPosition;
        }
        CopyData(buf, audioData.value, audioPosition, n);
        audioPosition := audioPosition + n;
        FillSilence(buf, n, size);
      } else {
        n := 0;
        FillSilence(buf, 0, size);
      }
      assert n == Copied(audioData, audioSize, pos0, size);
      ChunkFilled(buf[..], audioData, audioSize, pos0, size);
    }

    /** sb16_stop: the DSP is paused and silenced and the data forgotten. */
    method Stop()
      requires Valid()
      modifies this
      ensures dsp == old(dsp) + STOP_COMMANDS && ports == old(ports)
      ensures !playbackActive && audioData == None && audioSize == 0 && audioPosition == 0
      ensures activeBuffer == old(activeBuffer) && dma == old(dma) && Valid()
    {
      dsp := dsp + STOP_COMMANDS;
      playbackActive := false;
      audioData := None;
      audioSize := 0;
      audioPosition := 0;
    }

    /** sb16_irq_handler: while playing, refill the buffer that finished,
        hand the other one to the DMA controller, restart the DSP, switch
        buffers, and stop once the data is used up; always acknowledge the
        interrupt. */
    method Irq()
      requires Valid()
      modifies this, buffer1, buffer2
      ensures Valid()
      ensures !old(playbackActive) ==>
                ports == old(ports) + [Outb(PIC_COMMAND, PIC_EOI)] && dsp == old(dsp) && !playbackActive
                && activeBuffer == old(activeBuffer) && dma == old(dma)
                && audioData == old(audioData) && audioPosition == old(audioPosition) && audioSize == old(audioSize)
                && buffer1[..] == old(buffer1[..]) && buffer2[..] == old(buffer2[..])
      ensures old(playbackActive) ==>
                var n := Copied(old(audioData), old(audioSize), old(audioPosition), BUFFER_SIZE);
                var pos := old(audioPosition) + n;
                activeBuffer == 1 - old(activeBuffer) && dma == old(dma) + [1 - old(activeBuffer)]
                && Buffer(old(activeBuffer))[..] == Chunk(old(audioData), old(audioSize), old(audioPosition), BUFFER_SIZE)
                && ports == old(ports) + [Outb(PIC_COMMAND, PIC_EOI)]
                && (old(activeBuffer) == 0 ==> buffer2[..] == old(buffer2[..]))
                && (old(activeBuffer) == 1 ==> buffer1[..] == old(buffer1[..]))
                && (Finished(pos, old(audioSize)) ==>
                      !playbackActive && audioData == None && audioSize == 0 && audioPosition == 0
                      && dsp == old(dsp) + RESTART_COMMANDS + STOP_COMMANDS)
                && (!Finished(pos, old(audioSize)) ==>
                      playbackActive && audioData == old(audioData) && audioSize == old(audioSize) && audioPosition == pos
                      && dsp == old(dsp) + RESTART_COMMANDS)
    {
      if playbackActive {
        var buf := Buffer(activeBuffer);
        FillBuffer(buf, BUFFER_SIZE);
        var nextBuffer := 1 - activeBuffer;
        dma := dma + [nextBuffer];
        dsp := dsp + RESTART_COMMANDS;
        activeBuffer := nextBuffer;
        if audioPosition >= audioSize && audioSize > 0 {
          Stop();
        }
      }
      ports := ports + [Outb(PIC_COMMAND, PIC_EOI)];
    }

    /** The priming sb16_init and sb16_play share: buffer1 and then
        buffer2 filled from the current position, buffer1 active and handed
        to the DMA controller. */
    method PrimeBuffers()
      requires Valid()
      modifies buffer1, buffer2, this`audioPosition, this`activeBuffer, this`dma
      ensures Valid() && activeBuffer == 0 && dma == old(dma) + [0]
      ensures var n1 := Copied(audioData, audioSize, old(audioPosition), BUFFER_SIZE);
              audioPosition == old(audioPosition) + n1 + Copied(audioData, audioSize, old(audioPosition) + n1, BUFFER_SIZE)
              && buffer1[..] == Chunk(audioData, audioSize, old(audioPosition), BUFFER_SIZE)
              && buffer2[..] == Chunk(audioData, audioSize, old(audioPosition) + n1, BUFFER_SIZE)
    {
      FillBuffer(buffer1, BUFFER_SIZE);
      FillBuffer(buffer2, BUFFER_SIZE);
      activeBuffer := 0;
      dma := dma + [0];
    }

    /** sb16_init: reset the DSP, set 22050 Hz and full volume, prime both
        buffers and buffer1's DMA, and leave playback off. */
    method Init()
      requires Valid()
      modifies this, buffer1, buffer2
      ensures Valid() && activeBuffer == 0 && !playbackActive && dma == old(dma) + [0]
      ensures ports == old(ports) + [Outb(DSP_RESET, 1), Outb(DSP_RESET, 0)] + MixerWrites(0xFF)
      ensures dsp == old(dsp) + RateCommands(DEFAULT_RATE)
      ensures audioData == old(audioData) && audioSize == old(audioSize)
      ensures var n1 := Copied(old(audioData), old(audioSize), old(audioPosition), BUFFER_SIZE);
              var n2 := Copied(old(audioData), old(audioSize), old(audioPosition) + n1, BUFFER_SIZE);
              audioPosition == old(audioPosition) + n1 + n2
              && buffer1[..] == Chunk(old(audioData), old(audioSize), old(audioPosition), BUFFER_SIZE)
              && buffer2[..] == Chunk(old(audioData), old(audioSize), old(audioPosition) + n1, BUFFER_SIZE)
    {
      ports := ports + [Outb(DSP_RESET, 1), Outb(DSP_RESET, 0)];
      dsp := dsp + RateCommands(DEFAULT_RATE);
      ports := ports + MixerWrites(0xFF);
      PrimeBuffers();
      playbackActive := false;
    }

    /** sb16_play: stop what is playing, then start the new data. */
    method Play(data: Option<seq<Byte>>, size: Word32, sampleRate: Word16)
      requires Valid() && (data.Some? ==> size <= |data.value|)
      modifies this, buffer1, buffer2
      ensures Valid() && playbackActive && activeBuffer == 0 && dma == old(dma) + [0]
      ensures audioData == data && audioSize == size
      ensures var n1 := Copied(data, size, 0, BUFFER_SIZE);
              audioPosition == n1 + Copied(data, size, n1, BUFFER_SIZE)
              && buffer1[..] == Chunk(data, size, 0, BUFFER_SIZE)
              && buffer2[..] == Chunk(data, size, n1, BUFFER_SIZE)
      ensures var stop := if old(playbackActive) then STOP_COMMANDS else [];
              var rate := if MIN_RATE <= sampleRate <= MAX_RATE then RateCommands(sampleRate) else [];
              dsp == old(dsp) + stop + rate + StartCommands(BUFFER_SIZE) && ports == old(ports)
    {
      if playbackActive {
        Stop();
      }
      Start(data, size, sampleRate);
    }

    /** The rest of sb16_play: take the new data from its start, set the
        rate when it is within 5000..48000 Hz, fill both buffers and start
        buffer1. */
    method Start(data: Option<seq<Byte>>, size: Word32, sampleRate: Word16)
      requires Valid() && (data.Some? ==> size <= |data.value|)
      modifies this, buffer1, buffer2
      ensures Valid() && playbackActive && activeBuffer == 0 && dma == old(dma) + [0]
      ensures audioData == data && audioSize == size
      ensures var n1 := Copied(data, size, 0, BUFFER_SIZE);
              audioPosition == n1 + Copied(data, size, n1, BUFFER_SIZE)
              && buffer1[..] == Chunk(data, size, 0, BUFFER_SIZE)
              && buffer2[..] == Chunk(data, size, n1, BUFFER_SIZE)
      ensures var rate := if MIN_RATE <= sampleRate <= MAX_RATE then RateCommands(sampleRate) else [];
              dsp == old(dsp) + rate + StartCommands(BUFFER_SIZE) && ports == old(ports)
    {
      var rate := if sampleRate >= MIN_RATE && sampleRate <= MAX_RATE then RateCommands(sampleRate) else [];
      audioData, audioSize, audioPosition, dsp := data, size, 0, dsp + rate;
      PrimeBuffers();
      dsp, playbackActive := dsp + StartCommands(BUFFER_SIZE), true;
    }
  }
}
