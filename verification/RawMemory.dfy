/** Memory as 64-bit words. */
module RawMemory {

  type Word = w: int | 0 <= w < 0x1_0000_0000_0000_0000

  /** Memory words by byte address; a word never written reads as 0. */
  type Memory = map<int, Word>

  function Load(mem: Memory, a: int): Word {
    if a in mem then mem[a] else 0
  }
}
