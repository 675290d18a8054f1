/** The chunked Sound Blaster 16 player of drivers/audio/sb16.c: the
    music buffer is played `size` bytes at a time, each chunk started from
    the interrupt of the previous one. DSP and reset writes appear as a
    trace of port writes, the DMA programming of drivers/dma.c (not part of
    this model) as a trace of the chunks handed to channel 1. */
module Sb16Hw {
  import opened Machine

  const SB16_RESET: Word16 := 0x226
  const SB16_WRITE: Word16 := 0x22C
  const SB16_DMA8_CHAN: nat := 1
  /** The byte the DSP answers a reset with. */
  const DSP_READY: Byte := 0xAA
  const CMD_STEREO: Byte := 0x16
  const CMD_MONO: Byte := 0x14
  const CMD_EOI: Byte := 0xD0

  /** A transfer handed to the DMA controller: `length` bytes from
      `offset` bytes into the music buffer. */
  datatype DmaStart = DmaStart(channel: nat, offset: nat, length: Word16)

  /** The two length bytes sb16_start_dma sends for a uint16_t size:
      size - 1 in int arithmetic, low byte then high byte (so size 0
      sends 0xFFFF). */
  function LengthBytes(size: Word16): seq<Byte>
  {
    [(size - 1) % 0x100, ((size - 1) / 0x100) % 0x100]
  }

  /** The DSP receives size - 1, the block-length convention of its 8-bit
      output commands; for size 0 it receives 0xFFFF. */
  lemma LengthBytesEncode(size: Word16)
    ensures var b := LengthBytes(size);
            (size >= 1 ==> b[0] as int + (b[1] as int) * 0x100 == size - 1) && (size == 0 ==> b == [0xFF, 0xFF])
  {
  }

  /** The 8-bit output command: stereo for a non-zero `stereo`. */
  function OutputCommand(stereo: Byte): Byte
  {
    if stereo != 0 then CMD_STEREO else CMD_MONO
  }

  /** As the source writes it: the handler goes on if the byte at the new
      position is non-zero, read from memory without regard to the end of
      the buffer. `mem` is memory from the start of the buffer on. */
  predicate ContinuesAsWritten(mem: seq<Byte>, pos: nat)
    requires pos < |mem|
  {
    mem[pos] != 0
  }

  /** As evidently intended: the handler goes on only while the position
      is inside the `total` bytes of the buffer and at a non-zero byte. */
  predicate Continues(buffer: seq<Byte>, pos: nat)
  {
    pos < |buffer| && buffer[pos] != 0
  }

  /** For a 4-byte buffer played in one 4-byte chunk, the source decides
      whether to start another transfer on the byte just after the buffer;
      the corrected test stops. */
  lemma ReadsPastTheEnd()
    ensures var mem: seq<Byte> := [1, 2, 3, 4, 7];
            ContinuesAsWritten(mem, 4) && !Continues(mem[..4], 4)
  {
  }

  /** Inside the buffer the two tests agree. */
  lemma ContinuesAgrees(mem: seq<Byte>, total: nat, pos: nat)
    requires total <= |mem| && pos < total
    ensures Continues(mem[..total], pos) == ContinuesAsWritten(mem, pos)
  {
  }

  /** The statics of drivers/audio/sb16.c. */
  class HwPlayer {
    /** The `total` bytes of the music buffer. */
    var buffer: seq<Byte>
    var size: Word32
    var pos: Word32
    var playing: bool
    var stereo: Byte
    var ports: seq<PortOut>
    var dma: seq<DmaStart>

    /** The statics as the program loads them. */
    constructor ()
      ensures buffer == [] && size == 0 && pos == 0 && !playing && stereo == 0
      ensures ports == [] && dma == []
    {
      buffer := [];
      size, pos := 0, 0;
      playing := false;
      stereo := 0;
      ports, dma := [], [];
    }

    /** sb16_hw_init: pulse reset; success exactly when the DSP answers
        0xAA (`answer` is what the read returns). */
    method Init(answer: Byte) returns (r: int)
      modifies this
      ensures r == (if answer == DSP_READY then 0 else -1)
      ensures ports == old(ports) + [Outb(SB16_RESET, 1), Outb(SB16_RESET, 0)]
      ensures buffer == old(buffer) && size == old(size) && pos == old(pos) && playing == old(playing)
      ensures stereo == old(stereo) && dma == old(dma)
    {
      ports := ports + [Outb(SB16_RESET, 1)];
      ports := ports + [Outb(SB16_RESET, 0)];
      r := if answer == DSP_READY then 0 else -1;
    }

    /** sb16_start_dma: a chunk of `len` bytes (cut to uint16_t) at
        `offset` is handed to the DMA controller and the DSP, and playing
        is set. */
    method StartDma(offset: nat, len: Word32)
      modifies this
      ensures dma == old(dma) + [DmaStart(SB16_DMA8_CHAN, offset, len % U16)]
      ensures ports == old(ports) + [Outb(SB16_WRITE, OutputCommand(stereo))]
                       + [Outb(SB16_WRITE, LengthBytes(len % U16)[0]), Outb(SB16_WRITE, LengthBytes(len % U16)[1])]
      ensures playing
      ensures buffer == old(buffer) && size == old(size) && pos == old(pos) && stereo == old(stereo)
    {
      var len16: Word16 := len % U16;
      dma := dma + [DmaStart(SB16_DMA8_CHAN, offset, len16)];
      if stereo != 0 {
        ports := ports + [Outb(SB16_WRITE, CMD_STEREO)];
      } else {
        ports := ports + [Outb(SB16_WRITE, CMD_MONO)];
      }
      ports := ports + [Outb(SB16_WRITE, (len16 - 1) % 0x100), Outb(SB16_WRITE, ((len16 - 1) / 0x100) % 0x100)];
      playing := true;
    }

    /** sb16_irq_handler: nothing when not playing; otherwise advance by
        one chunk, start the next chunk if the buffer goes on, and send
        DSP command 0xD0. */
    method Irq()
      modifies this
      ensures !old(playing) ==>
                buffer == old(buffer) && size == old(size) && pos == old(pos) && !playing
                && stereo == old(stereo) && ports == old(ports) && dma == old(dma)
      ensures old(playing) ==>
                var next := (old(pos) + old(size)) % U32;
                pos == next && buffer == old(buffer) && size == old(size) && stereo == old(stereo)
                && playing == Continues(old(buffer), next)
                && (Continues(old(buffer), next) ==>
                      dma == old(dma) + [DmaStart(SB16_DMA8_CHAN, next, old(size) % U16)]
                      && ports == old(ports) + [Outb(SB16_WRITE, OutputCommand(stereo))]
                                  + [Outb(SB16_WRITE, LengthBytes(old(size) % U16)[0]), Outb(SB16_WRITE, LengthBytes(old(size) % U16)[1])]
                                  + [Outb(SB16_WRITE, CMD_EOI)])
                && (!Continues(old(buffer), next) ==>
                      dma == old(dma) && ports == old(ports) + [Outb(SB16_WRITE, CMD_EOI)])
    {
      if !playing {
        return;
      }
      pos := (pos + size) % U32;
      if Continues(buffer, pos) {
        StartDma(pos, size);
      } else {
        playing := false;
      }
      ports := ports + [Outb(SB16_WRITE, CMD_EOI)];
    }

    /** sb16_hw_play_music: -1 for a null buffer or a zero size or total;
        otherwise record the buffer, chunk size and stereo flag, rewind,
        and start the first chunk. */
    method PlayMusic(music: Option<seq<Byte>>, chunk: Word32, total: Word32, st: Byte) returns (r: int)
      requires music.Some? ==> total <= |music.value|
      modifies this
      ensures r == -1 <==> music.None? || chunk == 0 || total == 0
      ensures r == -1 ==> buffer == old(buffer) && size == old(size) && pos == old(pos) && playing == old(playing)
                          && stereo == old(stereo) && ports == old(ports) && dma == old(dma)
      ensures r != -1 ==>
                r == 0 && buffer == music.value[..total] && size == chunk && pos == 0 && stereo == st && playing
                && dma == old(dma) + [DmaStart(SB16_DMA8_CHAN, 0, chunk % U16)]
                && ports == old(ports) + [Outb(SB16_WRITE, OutputCommand(st))]
                            + [Outb(SB16_WRITE, LengthBytes(chunk % U16)[0]), Outb(SB16_WRITE, LengthBytes(chunk % U16)[1])]
    {
      if music.None? || chunk == 0 || total == 0 {
        return -1;
      }
      buffer := music.value[..total];
      size := chunk;
      pos := 0;
      stereo := st;
      StartDma(0, size);
      return 0;
    }
  }
}
