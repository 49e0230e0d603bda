/** The EEPROM bank read: 16-bit words fetched over SMBus at successive even
    offsets from the bank's file pointer are split into bytes, low byte
    first, until at least the requested count is produced; the 16-bit file
    pointer then advances by the number of bytes produced. */
module Eeprom {
  import opened Bits

  const NUM_BANKS := 2
  const BANK_SIZE := 2048

  /** One past the largest `unsigned short`. */
  const USHRT_RANGE := 0x1_0000

  /** The value an SMBus read-word transfer returns. */
  type Word = w: int | 0 <= w < 0x1_0000

  /** An `unsigned short`. */
  type Ushort = p: int | 0 <= p < 0x1_0000

  /** Per-bank driver data: the slave address of the bank, its file pointer
      and its number. The character device and the I2C client are glue and
      are not modelled. */
  datatype Bank = Bank(addr: nat, currentPointer: Ushort, bankNumber: int)

  /** `(u8)(w & 0xFF)`. */
  function Lo(w: Word): (b: Byte)
    ensures b == w % 0x100
  {
    MaskIsMod(w, 8);
    And(w, 0xFF)
  }

  /** `(u8)(w >> 8)`: a right shift of a non-negative value is division by
      a power of two, and for a 16-bit word it already fits a byte. */
  function Hi(w: Word): (b: Byte)
    ensures b * 0x100 <= w < b * 0x100 + 0x100
  {
    w / 0x100
  }

  /** The low and high bytes emitted for a word reassemble into it. */
  lemma SplitJoin(w: Word)
    ensures Hi(w) as int * 0x100 + Lo(w) as int == w
  {
  }

  /** Byte `j` of a read starting at file pointer `base`: word `j / 2` is
      fetched from `base + 2 * (j / 2)` and contributes its low byte at the
      even position, its high byte at the odd one. */
  function ByteAt(fetch: int -> Word, base: int, j: nat): Byte
  {
    var w := fetch(base + 2 * (j / 2));
    if j % 2 == 0 then Lo(w) else Hi(w)
  }

  /** The bytes of `n` consecutive words starting at `base`. */
  function Fetched(fetch: int -> Word, base: int, n: nat): (bytes: seq<Byte>)
    ensures |bytes| == 2 * n
    ensures forall j | 0 <= j < |bytes| :: bytes[j] == ByteAt(fetch, base, j)
    decreases n
  {
    if n == 0 then []
    else
      var w := fetch(base + 2 * (n - 1));
      Fetched(fetch, base, n - 1) + [Lo(w), Hi(w)]
  }

  /** Bytes produced by a read of `count` bytes: the loop emits whole words,
      so an odd count is rounded up to the next even number. */
  function Produced(count: nat): (n: nat)
    ensures n % 2 == 0 && count <= n < count + 2
  {
    count + count % 2
  }

  /** `Produced(count)` is the least even number not below `count`. */
  lemma ProducedIsLeast(count: nat, m: nat)
    requires m % 2 == 0 && count <= m
    ensures Produced(count) <= m
  {
  }

  /** `Produced(count)` is the only even number in `[count, count + 2)`. */
  lemma ProducedUnique(count: nat, m: nat)
    requires m % 2 == 0 && count <= m < count + 2
    ensures m == Produced(count)
  {
  }

  /** `eep_read`, with `my_buf` taken to be a byte array (see `Delivered`
      for what the driver's `int` array hands over instead). `canReadWord`
      is the adapter's answer to the read-word capability query and `fetch`
      the SMBus read-word transfer at an offset. Returns the updated bank,
      the first `transferred` entries of `my_buf`, which a byte array would
      hand to the caller as they are, and the return value. */
  method Read(bank: Bank, count: nat, canReadWord: bool, fetch: int -> Word)
    returns (bank': Bank, data: seq<Byte>, result: int)
    ensures !canReadWord ==> bank' == bank && data == [] && result == 0
    ensures canReadWord ==> result == Produced(count)
    ensures result == |data|
    ensures forall j | 0 <= j < |data| :: data[j] == ByteAt(fetch, bank.currentPointer, j)
    ensures data == Fetched(fetch, bank.currentPointer, result / 2)
    ensures bank'.currentPointer == (bank.currentPointer + result) % USHRT_RANGE
    ensures bank'.addr == bank.addr && bank'.bankNumber == bank.bankNumber
  {
    var i := 0;
    var transferred := 0;
    data := [];
    bank' := bank;
    if canReadWord {
      while transferred < count
        invariant i == transferred == |data|
        invariant transferred % 2 == 0 && transferred < count + 2
        invariant forall j | 0 <= j < |data| :: data[j] == ByteAt(fetch, bank.currentPointer, j)
      {
        var w := fetch(bank.currentPointer + i);
        data := data + [Lo(w)];
        i := i + 1;
        data := data + [Hi(w)];
        i := i + 1;
        transferred := transferred + 2;
      }
      ProducedUnique(count, transferred);
      bank' := bank.(currentPointer := (bank.currentPointer + transferred) % USHRT_RANGE);
    }
    result := transferred;
    assert data == Fetched(fetch, bank.currentPointer, result / 2);
  }

  /** The four bytes of a 32-bit `int` holding `v`, least significant
      first, as a little-endian machine stores them. */
  function LittleEndian32(v: nat): seq<Byte>
    requires v < 0x1_0000_0000
  {
    [v % 0x100, v / 0x100 % 0x100, v / 0x1_0000 % 0x100, v / 0x100_0000 % 0x100]
  }

  /** The memory of an `int` array whose elements are the bytes in `buf`:
      each element's value sits in the first of its four bytes and the
      other three are zero. */
  function IntArrayMemory(buf: seq<Byte>): (mem: seq<Byte>)
    ensures |mem| == 4 * |buf|
    ensures forall k | 0 <= k < |mem| :: mem[k] == (if k % 4 == 0 then buf[k / 4] else 0)
  {
    if |buf| == 0 then []
    else IntArrayMemory(buf[..|buf| - 1]) + LittleEndian32(buf[|buf| - 1])
  }

  /** What `copy_to_user(buffer, (void *)my_buf, transferred)` hands over,
      as written: the first `n` bytes of the memory of the `int` array
      `my_buf` holding `buf`. */
  function Delivered(buf: seq<Byte>, n: nat): (out: seq<Byte>)
    requires n <= 4 * |buf|
    ensures |out| == n
    ensures forall k | 0 <= k < n :: out[k] == (if k % 4 == 0 then buf[k / 4] else 0)
  {
    IntArrayMemory(buf)[..n]
  }

  /** As written, the caller never sees a word's high byte: byte 1 of every
      read of at least one word is zero, where the word's high byte
      belongs. */
  lemma DeliveredLosesHighByte(fetch: int -> Word, base: int, n: nat)
    requires n >= 1
    ensures Delivered(Fetched(fetch, base, n), 2 * n)[1] == 0
    ensures Fetched(fetch, base, n)[1] == Hi(fetch(base))
  {
  }

  /** An EEPROM answering `0x1234` everywhere. */
  function Const1234(offset: int): Word
  {
    0x1234
  }

  /** A two-byte read of the word `0x1234`: the driver as written hands
      over `[0x34, 0x00]`, where the word's bytes are `[0x34, 0x12]`. */
  lemma IntBufferDropsHighBytes()
    ensures Delivered(Fetched(Const1234, 0, 1), 2) == [0x34, 0x00]
    ensures Fetched(Const1234, 0, 1) == [0x34, 0x12]
  {
    var bytes := Fetched(Const1234, 0, 1);
    assert bytes[0] == 0x34 && bytes[1] == 0x12;
  }

  /** Pairing the bytes of a read back up yields the fetched words, in
      address order. */
  lemma FetchedJoin(fetch: int -> Word, base: int, n: nat, k: nat)
    requires k < n
    ensures Fetched(fetch, base, n)[2 * k + 1] as int * 0x100 + Fetched(fetch, base, n)[2 * k] as int
         == fetch(base + 2 * k)
  {
  }

  /** Reading `2m` bytes and then `2n` more from where the first read left
      off yields the same bytes as one read of `2(m + n)`. */
  lemma FetchedSplit(fetch: int -> Word, base: int, m: nat, n: nat)
    ensures Fetched(fetch, base, m + n)
         == Fetched(fetch, base, m) + Fetched(fetch, base + 2 * m, n)
  {
  }

  /** Two consecutive reads see the same bytes as one combined read as long
      as the 16-bit file pointer does not wrap in between; the first read's
      byte count must be even for the second to start on its word
      boundary. */
  lemma ConsecutiveReads(fetch: int -> Word, p: Ushort, c1: nat, c2: nat)
    requires c1 % 2 == 0 && c2 % 2 == 0
    requires p + c1 < USHRT_RANGE
    ensures Fetched(fetch, p, Produced(c1) / 2)
          + Fetched(fetch, (p + Produced(c1)) % USHRT_RANGE, Produced(c2) / 2)
         == Fetched(fetch, p, Produced(c1 + c2) / 2)
  {
    assert Produced(c1) == c1 && Produced(c2) == c2 && Produced(c1 + c2) == c1 + c2;
    assert (p + c1) % USHRT_RANGE == p + c1;
    FetchedSplit(fetch, p, c1 / 2, c2 / 2);
    assert c1 / 2 + c2 / 2 == (c1 + c2) / 2;
  }

  /** The buffer of `BANK_SIZE` slots the driver fills holds every index the
      loop writes exactly when the request does not exceed a bank. */
  lemma ReadFitsBuffer(count: nat)
    ensures Produced(count) <= BANK_SIZE <==> count <= BANK_SIZE
  {
  }
}
