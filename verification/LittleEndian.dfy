/** Little-endian integers in byte strings (`to_le_bytes`, `from_le_bytes`). */
module LittleEndian {
  import opened Indexing
  import opened Machine

  const WORD: int := 0x1_0000_0000

  function Le16(x: u16): (bytes: seq<u8>)
    ensures |bytes| == 2
  {
    [x % 0x100, x / 0x100]
  }

  function Le32(x: u32): (bytes: seq<u8>)
    ensures |bytes| == 4
  {
    [x % 0x100, x / 0x100 % 0x100, x / 0x1_0000 % 0x100, x / 0x100_0000]
  }

  function Le64(x: u64): (bytes: seq<u8>)
    ensures |bytes| == 8
  {
    Le32(x % WORD) + Le32(x / WORD)
  }

  function U16At(input: seq<u8>, offset: nat): u16
    requires offset + 2 <= |input|
  {
    var (a: int, b: int) := (input[offset], input[offset + 1]);
    a + 0x100 * b
  }

  function U32At(input: seq<u8>, offset: nat): u32
    requires offset + 4 <= |input|
  {
    var (a: int, b: int, c: int, d: int) := (input[offset], input[offset + 1], input[offset + 2], input[offset + 3]);
    a + 0x100 * b + 0x1_0000 * c + 0x100_0000 * d
  }

  function U64At(input: seq<u8>, offset: nat): u64
    requires offset + 8 <= |input|
  {
    U32At(input, offset) + WORD * U32At(input, offset + 4)
  }

  /** A field reads back as the value written exactly when its bytes are the bytes
      that writing the value produces. */
  lemma Field32(input: seq<u8>, offset: nat, x: u32)
    requires offset + 4 <= |input|
    ensures input[offset..offset + 4] == Le32(x) <==> U32At(input, offset) == x
  {
    var field := input[offset..offset + 4];
    assert field[0] == input[offset] && field[1] == input[offset + 1];
    assert field[2] == input[offset + 2] && field[3] == input[offset + 3];
    Digits32(x);
    if U32At(input, offset) == x {
      Bytes32(field[0], field[1], field[2], field[3]);
    }
  }

  lemma Digits32(x: u32)
    ensures x
         == x % 0x100 + 0x100 * (x / 0x100 % 0x100) + 0x1_0000 * (x / 0x1_0000 % 0x100) + 0x100_0000 * (x / 0x100_0000)
  {
    assert x / 0x1_0000 == x / 0x100 / 0x100;
    assert x / 0x100_0000 == x / 0x100 / 0x100 / 0x100;
  }

  lemma Bytes32(a: u8, b: u8, c: u8, d: u8)
    ensures Le32(a + 0x100 * b + 0x1_0000 * c + 0x100_0000 * d) == [a, b, c, d]
  {
    var x := a + 0x100 * b + 0x1_0000 * c + 0x100_0000 * d;
    assert x / 0x100 == b + 0x100 * c + 0x1_0000 * d;
    assert x / 0x1_0000 == c + 0x100 * d;
    assert x / 0x100_0000 == d;
  }

  lemma Field64(input: seq<u8>, offset: nat, x: u64)
    requires offset + 8 <= |input|
    ensures input[offset..offset + 8] == Le64(x) <==> U64At(input, offset) == x
  {
    Field32(input, offset, x % WORD);
    Field32(input, offset + 4, x / WORD);
    var field := input[offset..offset + 8];
    assert field[..4] == input[offset..offset + 4] && field[4..] == input[offset + 4..offset + 8];
    assert field == field[..4] + field[4..];
    assert Le64(x)[..4] == Le32(x % WORD) && Le64(x)[4..] == Le32(x / WORD);
  }

  /** Two adjacent halves are one word. */
  lemma Halves(input: seq<u8>, offset: nat, x: u16, y: u16)
    requires offset + 4 <= |input|
    ensures Le16(x) + Le16(y) == Le32(x + 0x1_0000 * y)
    ensures U32At(input, offset) == x + 0x1_0000 * y <==> U16At(input, offset) == x && U16At(input, offset + 2) == y
  {
    HalvesWritten(x, y);
    HalvesRead(U16At(input, offset), U16At(input, offset + 2), x, y);
    assert U32At(input, offset) == U16At(input, offset) + 0x1_0000 * U16At(input, offset + 2);
  }

  lemma HalvesWritten(x: u16, y: u16)
    ensures Le16(x) + Le16(y) == Le32(x + 0x1_0000 * y)
  {
    Bytes32(x % 0x100, x / 0x100, y % 0x100, y / 0x100);
  }

  lemma HalvesRead(u: u16, v: u16, x: u16, y: u16)
    ensures u + 0x1_0000 * v == x + 0x1_0000 * y <==> u == x && v == y
  {}

  // Sixteen-byte lines: headers are laid out four words at a time.

  function Quad(a: u32, b: u32, c: u32, d: u32): (bytes: seq<u8>)
    ensures |bytes| == 16
  {
    Le32(a) + Le32(b) + Le32(c) + Le32(d)
  }

  /** A sixteen-byte line of a header is four words exactly when it reads back as them. */
  lemma QuadAt(input: seq<u8>, offset: nat, a: u32, b: u32, c: u32, d: u32)
    requires offset + 16 <= |input|
    ensures (input[offset..offset + 16] == Quad(a, b, c, d)) <==>
      (U32At(input, offset) == a && U32At(input, offset + 4) == b && U32At(input, offset + 8) == c
          && U32At(input, offset + 12) == d)
  {
    var line, quad := input[offset..offset + 16], Quad(a, b, c, d);
    SliceOfSlice(input, offset, offset + 16, 0, 4);
    SliceOfSlice(input, offset, offset + 16, 4, 8);
    SliceOfSlice(input, offset, offset + 16, 8, 12);
    SliceOfSlice(input, offset, offset + 16, 12, 16);
    assert quad[0..4] == Le32(a) && quad[4..8] == Le32(b) && quad[8..12] == Le32(c) && quad[12..16] == Le32(d);
    assert line == line[0..4] + line[4..8] + line[8..12] + line[12..16];
    Field32(input, offset, a);
    Field32(input, offset + 4, b);
    Field32(input, offset + 8, c);
    Field32(input, offset + 12, d);
  }

  /** Two fields side by side are there exactly when each of them is. */
  lemma Joined(input: seq<u8>, offset: nat, x: seq<u8>, y: seq<u8>)
    requires offset + |x| + |y| <= |input|
    ensures input[offset..offset + |x| + |y|] == x + y <==>
      input[offset..offset + |x|] == x && input[offset + |x|..offset + |x| + |y|] == y
  {
    var window := input[offset..offset + |x| + |y|];
    SliceOfSlice(input, offset, offset + |x| + |y|, 0, |x|);
    SliceOfSlice(input, offset, offset + |x| + |y|, |x|, |x| + |y|);
    assert window == window[0..|x|] + window[|x|..|x| + |y|];
    assert (x + y)[0..|x|] == x && (x + y)[|x|..|x| + |y|] == y;
  }

  // Runs of 32-bit words ----------------------------------------------------------------

  /** A list of words written one after the other. */
  function Words(values: seq<u32>): (bytes: seq<u8>)
    ensures |bytes| == 4 * |values|
  {
    if values == [] then [] else Words(values[..|values| - 1]) + Le32(values[|values| - 1])
  }

  function WordsAt(input: seq<u8>, offset: nat, count: nat): (values: seq<u32>)
    requires offset + 4 * count <= |input|
    ensures |values| == count
  {
    seq(count, i requires 0 <= i < count => U32At(input, offset + 4 * i))
  }

  /** A run of words reads back as the list that was written, and only as that list. */
  lemma {:induction false} WordsField(input: seq<u8>, offset: nat, values: seq<u32>)
    requires offset + 4 * |values| <= |input|
    ensures input[offset..offset + 4 * |values|] == Words(values) <==> WordsAt(input, offset, |values|) == values
  {
    if values == [] {
      assert input[offset..offset] == [] && WordsAt(input, offset, 0) == [];
    } else {
      var front, last := values[..|values| - 1], values[|values| - 1];
      WordsField(input, offset, front);
      Joined(input, offset, Words(front), Le32(last));
      Field32(input, offset + 4 * |front|, last);
      assert values == front + [last];
      assert WordsAt(input, offset, |values|) == WordsAt(input, offset, |front|) + [U32At(input, offset + 4 * |front|)];
    }
  }

  lemma {:induction false} WordsConcat(x: seq<u32>, y: seq<u32>)
    ensures Words(x + y) == Words(x) + Words(y)
  {
    if y == [] {
      assert x + y == x;
    } else {
      var front := y[..|y| - 1];
      WordsConcat(x, front);
      assert (x + y)[..|x + y| - 1] == x + front;
    }
  }

  /** A long run is its beginning followed by the run that starts where that ends. */
  lemma WordsAtSplit(input: seq<u8>, offset: nat, x: nat, y: nat)
    requires offset + 4 * (x + y) <= |input|
    ensures WordsAt(input, offset, x + y) == WordsAt(input, offset, x) + WordsAt(input, offset + 4 * x, y)
  {
    forall i | 0 <= i < y ensures offset + 4 * (x + i) == offset + 4 * x + 4 * i {}
  }
}
