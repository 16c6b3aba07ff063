/** The Synacor VM's memory (synacor_challenge/src/synacorvm/storage.rs):
    a fixed number of 16-bit cells, filled from a little-endian program
    image and then read and written one address at a time. */
module SynacorStorage {
  import opened Common

  /** Bitwise or of two naturals, bit by bit from the lowest. */
  function BitOr(a: nat, b: nat): nat
    decreases a + b
  {
    if a == 0 then b
    else if b == 0 then a
    else 2 * BitOr(a / 2, b / 2) + (if a % 2 == 1 || b % 2 == 1 then 1 else 0)
  }

  function Pow2(k: nat): (r: nat)
    ensures r > 0
  {
    if k == 0 then 1 else 2 * Pow2(k - 1)
  }

  lemma Pow2Values()
    ensures Pow2(8) == 0x100 && Pow2(16) == 0x1_0000
  {}

  /** The or of two `k`-bit numbers has `k` bits. */
  lemma {:induction false} OrBound(a: nat, b: nat, k: nat)
    requires a < Pow2(k) && b < Pow2(k)
    ensures BitOr(a, b) < Pow2(k)
  {
    if a != 0 && b != 0 {
      OrBound(a / 2, b / 2, k - 1);
    }
  }

  /** Or-ing a number below `2^k` into a multiple of `2^k` adds it: the
      two have no bit in common. */
  lemma {:induction false} OrDisjoint(lo: nat, hi: nat, k: nat)
    requires lo < Pow2(k)
    ensures BitOr(lo, hi * Pow2(k)) == lo + hi * Pow2(k)
  {
    if k > 0 && lo != 0 && hi != 0 {
      var h := hi * Pow2(k - 1);
      assert hi * Pow2(k) == 2 * h;
      assert (2 * h) / 2 == h && (2 * h) % 2 == 0;
      OrDisjoint(lo / 2, hi, k - 1);
    }
  }

  /** `<<` on a `u16`: bits shifted past bit 15 are lost. */
  function Shl16(x: u16, k: nat): u16
  {
    (x * Pow2(k)) % 0x1_0000
  }

  /** `as_u16_le`: the first byte or-ed with the second shifted left by 8
      bits; needs two bytes. */
  function AsU16Le(b: seq<byte>): u16
    requires |b| >= 2
  {
    Pow2Values();
    OrBound(b[0], Shl16(b[1], 8), 16);
    BitOr(b[0], Shl16(b[1], 8))
  }

  /** The word is `b[0] + 256 * b[1]`: the first byte is its low half,
      the second its high half. */
  lemma AsU16LeValue(b: seq<byte>)
    requires |b| >= 2
    ensures AsU16Le(b) == b[0] as int + 256 * b[1] as int
  {
    var lo: nat, hi: nat := b[0], b[1];
    Pow2Values();
    ShiftByte(hi);
    OrDisjoint(lo, hi, 8);
  }

  /** A byte shifted left by 8 bits still fits a `u16`. */
  lemma ShiftByte(hi: byte)
    ensures Shl16(hi, 8) == hi as int * 256
  {
    Pow2Values();
    assert hi as int * 256 < 0x1_0000;
  }

  /** The two bytes a word is stored as, low byte first. */
  function LeBytes(w: u16): (r: seq<byte>)
    ensures |r| == 2
  {
    [w % 256, w / 256]
  }

  /** Splitting a word into its bytes and reading it back gives the word,
      and any pair of bytes is the split of the word read from it. */
  lemma LeBytesRoundTrip(w: u16, b: seq<byte>)
    requires |b| == 2
    ensures AsU16Le(LeBytes(w)) == w
    ensures LeBytes(AsU16Le(b)) == b
  {
    AsU16LeValue(LeBytes(w));
    AsU16LeValue(b);
  }

  /** The words of an even-length program image, two bytes per word, in
      order. */
  function Words(program: seq<byte>): (r: seq<u16>)
    requires |program| % 2 == 0
    ensures |r| == |program| / 2
  {
    if |program| == 0 then [] else [AsU16Le(program[..2])] + Words(program[2..])
  }

  /** The `i`-th word comes from bytes `2i` and `2i + 1`. */
  lemma {:induction false} WordsAt(program: seq<byte>, i: nat)
    requires |program| % 2 == 0 && i < |program| / 2
    ensures Words(program)[i] == AsU16Le(program[2 * i..2 * i + 2])
    ensures Words(program)[i] == program[2 * i] as int + 256 * program[2 * i + 1] as int
  {
    if i == 0 {
      AsU16LeValue(program[..2]);
    } else {
      WordsAt(program[2..], i - 1);
      assert program[2..][2 * (i - 1)..2 * (i - 1) + 2] == program[2 * i..2 * i + 2];
    }
  }

  /** The program image of a sequence of words, low byte first. */
  function Image(words: seq<u16>): (r: seq<byte>)
    ensures |r| == 2 * |words|
  {
    if |words| == 0 then [] else LeBytes(words[0]) + Image(words[1..])
  }

  /** Reading the words of an image gives back the words, and the image
      of a program's words is the program. */
  lemma {:induction false} WordsImage(words: seq<u16>, program: seq<byte>)
    requires |program| % 2 == 0
    decreases |words| + |program|
    ensures Words(Image(words)) == words
    ensures Image(Words(program)) == program
  {
    if |words| > 0 {
      var img := Image(words);
      assert img[..2] == LeBytes(words[0]) && img[2..] == Image(words[1..]);
      LeBytesRoundTrip(words[0], img[..2]);
      WordsImage(words[1..], []);
    }
    if |program| > 0 {
      LeBytesRoundTrip(0, program[..2]);
      WordsImage([], program[2..]);
      assert program == program[..2] + program[2..];
    }
  }

  /** Writing word `i` extends the loaded prefix by one word. */
  lemma LoadStep(words: seq<u16>, was: seq<u16>, i: nat)
    requires i < |words| && i < |was|
    ensures (words[..i] + was[i..])[i := words[i]] == words[..i + 1] + was[i + 1..]
  {
  }

  /** Loading word `i` of a program extends the loaded prefix by one. */
  lemma LoadWord(program: seq<byte>, was: seq<u16>, i: nat)
    requires |program| % 2 == 0 && i < |program| / 2 && i < |was|
    ensures (Words(program)[..i] + was[i..])[i := AsU16Le(program[i * 2..i * 2 + 2])]
      == Words(program)[..i + 1] + was[i + 1..]
  {
    WordsAt(program, i);
    LoadStep(Words(program), was, i);
  }

  class Memory {
    const data: array<u16>

    /** `Memory::new`: `size` cells, all 0. */
    constructor(size: nat)
      ensures fresh(data)
      ensures data[..] == seq(size, _ => 0)
    {
      data := new u16[size](_ => 0);
    }

    /** `start_at`: the cells from `index` on; the index may be the end
        of memory, not past it. */
    function StartAt(index: nat): (r: seq<u16>)
      reads data
      requires index <= data.Length
      ensures |r| == data.Length - index
      ensures data[..index] + r == data[..]
    {
      data[index..]
    }

    /** `get`: the cell at `addr`, which has to be in memory. */
    function Get(addr: u16): (r: u16)
      reads data
      requires addr < data.Length
      ensures r == data[..][addr]
    {
      data[addr]
    }

    /** `set`: writes `value` to the cell at `addr`; every other cell keeps
        its value. */
    method Set(addr: u16, value: u16)
      requires addr < data.Length
      modifies data
      ensures data[..] == old(data[..])[addr := value]
      ensures Get(addr) == value
      ensures forall a: u16 :: a < data.Length && a != addr ==> Get(a) == old(Get(a))
    {
      data[addr] := value;
    }

    /** `push_program_bytes`: word `i` of memory becomes the little-endian
        word of bytes `2i` and `2i + 1`; memory past the program keeps its
        contents. The loop reads two bytes per word, so an odd-length
        image, or one longer than memory, stops it with an index out of
        bounds. */
    method PushProgramBytes(program: seq<byte>)
      requires |program| % 2 == 0 && |program| / 2 <= data.Length
      modifies data
      ensures data[..] == Words(program) + old(data[..])[|program| / 2..]
    {
      ghost var was := data[..];
      ghost var words := Words(program);
      ghost var n := |program| / 2;
      assert |program| == 2 * n;
      var i := 0;
      while i * 2 < |program|
        invariant 0 <= i <= n
        invariant data[..] == words[..i] + was[i..]
      {
        var w := AsU16Le(program[i * 2..i * 2 + 2]);
        LoadWord(program, was, i);
        ghost var before := data[..];
        data[i] := w;
        assert data[..] == before[i := w];
        i := i + 1;
      }
      assert words[..i] == words;
    }
  }

  /** After loading an image, the first cells hold exactly the words it
      encodes: `push_program_bytes` of `Image(words)` puts `words[i]` at
      address `i`. */
  lemma LoadedWords(words: seq<u16>, loaded: seq<u16>, rest: seq<u16>)
    requires loaded == Words(Image(words)) + rest
    ensures loaded[..|words|] == words
  {
    WordsImage(words, []);
  }
}
