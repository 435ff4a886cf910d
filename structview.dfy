/** Turning hexadecimal words into bytes (src/structview.py): the word-size
    check over all words and the per-word conversion in both byte orders. */
module StructView {
  import opened Results

  /** A value a `bytearray` can hold. */
  type Byte = b: nat | b < 256

  // ---------------------------------------------------------------------
  // Hex digits and two-character chunks
  // ---------------------------------------------------------------------

  /** An ASCII hexadecimal digit, in either case. */
  predicate IsHexDigit(c: char)
  {
    ('0' <= c <= '9') || ('a' <= c <= 'f') || ('A' <= c <= 'F')
  }

  /** The value of a hexadecimal digit. */
  function HexValue(c: char): (v: nat)
    requires IsHexDigit(c)
    ensures v < 16
  {
    if '0' <= c <= '9' then c as nat - '0' as nat
    else if 'a' <= c <= 'f' then c as nat - 'a' as nat + 10
    else c as nat - 'A' as nat + 10
  }

  /** The lower-case digit for a value below 16. */
  function HexDigit(v: nat): (c: char)
    requires v < 16
    ensures IsHexDigit(c) && HexValue(c) == v
  {
    if v < 10 then ('0' as nat + v) as char else ('a' as nat + v - 10) as char
  }

  /** A chunk `int(chunk, 16)` accepts: two hexadecimal digits. */
  predicate ValidChunk(chunk: string)
  {
    |chunk| == 2 && IsHexDigit(chunk[0]) && IsHexDigit(chunk[1])
  }

  /** The byte a two-character chunk stands for, or 0 when `int` rejects it
      (the `except ValueError` branch). */
  function ChunkByte(chunk: string): Byte
    requires |chunk| == 2
  {
    if ValidChunk(chunk) then 16 * HexValue(chunk[0]) + HexValue(chunk[1]) else 0
  }

  /** The two lower-case digits of a byte. */
  function ByteHex(b: Byte): (s: string)
    ensures ValidChunk(s)
  {
    [HexDigit(b / 16), HexDigit(b % 16)]
  }

  /** Reading back the two digits written for a byte gives the byte. */
  lemma ChunkByteRoundTrip(b: Byte)
    ensures ChunkByte(ByteHex(b)) == b
  {
    var s := ByteHex(b);
    assert 16 * HexValue(s[0]) + HexValue(s[1]) == 16 * (b / 16) + b % 16;
  }

  /** The bytes `bs`, in order, written as hexadecimal: the text a memory
      dump shows. */
  function HexText(bs: seq<Byte>): (s: string)
    ensures |s| == 2 * |bs|
  {
    if bs == [] then [] else ByteHex(bs[0]) + HexText(bs[1..])
  }

  function Reverse<T>(s: seq<T>): (r: seq<T>)
    ensures |r| == |s|
    ensures forall i :: 0 <= i < |s| ==> r[i] == s[|s| - 1 - i]
  {
    if s == [] then [] else Reverse(s[1..]) + [s[0]]
  }

  // ---------------------------------------------------------------------
  // Big-endian conversion (the while loop of get_bytes_from_hexstr)
  // ---------------------------------------------------------------------

  /** The big-endian bytes of a word: the chunks taken from the right end,
      two characters at a time, while a whole chunk is left.  An odd
      leading character is never visited. */
  function BigEndianBytes(data: string): (r: seq<Byte>)
    ensures |r| == |data| / 2
  {
    if |data| < 2 then []
    else [ChunkByte(data[|data| - 2..])] + BigEndianBytes(data[..|data| - 2])
  }

  /** The chunks that the loop rejects, in the order it visits them (the
      text of each warning it prints). */
  function BadChunks(data: string): (r: seq<string>)
    ensures forall i :: 0 <= i < |r| ==> |r[i]| == 2 && !ValidChunk(r[i])
  {
    if |data| < 2 then []
    else
      var chunk := data[|data| - 2..];
      (if ValidChunk(chunk) then [] else [chunk]) + BadChunks(data[..|data| - 2])
  }

  /** The `k`-th chunk from the right end: the characters `2k + 2` and
      `2k + 1` places from the end. */
  function ChunkAt(data: string, k: nat): (chunk: string)
    requires k < |data| / 2
    ensures |chunk| == 2
  {
    data[|data| - 2 * k - 2..|data| - 2 * k]
  }

  /** One step of the conversion: the last chunk, then the rest. */
  lemma BigEndianStep(data: string)
    requires |data| >= 2
    ensures var chunk := data[|data| - 2..];
      && BigEndianBytes(data) == [ChunkByte(chunk)] + BigEndianBytes(data[..|data| - 2])
      && BadChunks(data) == (if ValidChunk(chunk) then [] else [chunk]) + BadChunks(data[..|data| - 2])
  {
  }

  /** Dropping the last chunk shifts the other chunks down by one. */
  lemma ChunkShift(data: string, k: nat)
    requires 1 <= k < |data| / 2
    ensures ChunkAt(data, k) == ChunkAt(data[..|data| - 2], k - 1)
  {
  }

  /** Byte `k` of the big-endian result is the `k`-th chunk from the right. */
  lemma {:induction false} BigEndianAt(data: string, k: nat)
    requires k < |data| / 2
    ensures BigEndianBytes(data)[k] == ChunkByte(ChunkAt(data, k))
    decreases k
  {
    BigEndianStep(data);
    if k > 0 {
      var rest := data[..|data| - 2];
      BigEndianAt(rest, k - 1);
      ChunkShift(data, k);
    }
  }

  /** An odd-length word is converted as if its first character were not
      there: that character is dropped, not read as a zero-padded chunk. */
  lemma {:induction false} BigEndianOddDropsLeading(data: string)
    requires |data| % 2 == 1
    ensures BigEndianBytes(data) == BigEndianBytes(data[1..])
    ensures BadChunks(data) == BadChunks(data[1..])
    decreases |data|
  {
    if |data| >= 2 {
      var rest := data[..|data| - 2];
      BigEndianOddDropsLeading(rest);
      assert data[1..][|data[1..]| - 2..] == data[|data| - 2..];
      assert data[1..][..|data[1..]| - 2] == rest[1..];
    }
  }

  /** A word yields no warnings exactly when `int` accepts every chunk the
      loop reads. */
  lemma {:induction false} BadChunksEmpty(data: string)
    ensures BadChunks(data) == [] <==> forall k :: 0 <= k < |data| / 2 ==> ValidChunk(ChunkAt(data, k))
    decreases |data|
  {
    if |data| >= 2 {
      var rest := data[..|data| - 2];
      BadChunksEmpty(rest);
      BigEndianStep(data);
      assert ChunkAt(data, 0) == data[|data| - 2..];
      forall k | 1 <= k < |data| / 2 ensures ChunkAt(data, k) == ChunkAt(rest, k - 1) {
        ChunkShift(data, k);
      }
      if forall k :: 0 <= k < |data| / 2 ==> ValidChunk(ChunkAt(data, k)) {
        forall k | 0 <= k < |rest| / 2 ensures ValidChunk(ChunkAt(rest, k)) {
          assert ValidChunk(ChunkAt(data, k + 1));
        }
      }
    }
  }

  // ---------------------------------------------------------------------
  // Little-endian conversion (bytearray.fromhex)
  // ---------------------------------------------------------------------

  /** `bytearray.fromhex` on text without whitespace: the chunks left to
      right, or ValueError for an odd length or a non-hex character. */
  function FromHex(data: string): (r: Result<seq<Byte>>)
    ensures r.Ok? ==> |r.value| == |data| / 2
    ensures r.Err? ==> r.error == NonHexData
  {
    if data == [] then Ok([])
    else if |data| == 1 || !ValidChunk(data[..2]) then Err(NonHexData)
    else
      var rest :- FromHex(data[2..]);
      Ok([ChunkByte(data[..2])] + rest)
  }

  /** Every character of `data` is a hexadecimal digit. */
  predicate AllHex(data: string)
  {
    forall i :: 0 <= i < |data| ==> IsHexDigit(data[i])
  }

  /** The strict decoder succeeds exactly on even-length all-hex text. */
  lemma {:induction false} FromHexOk(data: string)
    ensures FromHex(data).Ok? <==> |data| % 2 == 0 && AllHex(data)
    decreases |data|
  {
    if |data| >= 2 {
      FromHexOk(data[2..]);
      if ValidChunk(data[..2]) && AllHex(data[2..]) {
        forall i | 0 <= i < |data|
          ensures IsHexDigit(data[i])
        {
          if i >= 2 { assert data[i] == data[2..][i - 2]; }
          else { assert data[i] == data[..2][i]; }
        }
      }
      if AllHex(data) {
        assert data[..2][0] == data[0] && data[..2][1] == data[1];
        forall i | 0 <= i < |data| - 2
          ensures IsHexDigit(data[2..][i])
        {
          assert data[2..][i] == data[i + 2];
        }
      }
    } else if |data| == 1 {
      assert |data| % 2 == 1;
    }
  }

  /** Byte `j` of a strict decoding comes from the characters `2j` and
      `2j + 1`, which are hexadecimal digits. */
  lemma {:induction false} LittleAt(data: string, j: nat)
    requires FromHex(data).Ok? && j < |data| / 2
    ensures ValidChunk(data[2 * j..2 * j + 2])
    ensures FromHex(data).value[j] == ChunkByte(data[2 * j..2 * j + 2])
    decreases j
  {
    var rest := data[2..];
    if j > 0 {
      assert FromHex(data).value[j] == FromHex(rest).value[j - 1];
      LittleAt(rest, j - 1);
      assert rest[2 * (j - 1)..2 * (j - 1) + 2] == data[2 * j..2 * j + 2];
    }
  }

  /** The loop reads the right-hand part of a word first: for a right-hand
      part of even length, the bytes of a concatenation are those of the
      right-hand part followed by those of the left-hand part, and so are
      the rejected chunks. */
  lemma {:induction false} BigEndianConcat(a: string, b: string)
    requires |b| % 2 == 0
    ensures BigEndianBytes(a + b) == BigEndianBytes(b) + BigEndianBytes(a)
    decreases |b|
  {
    if b == [] {
      assert a + b == a;
    } else {
      var b', chunk := b[..|b| - 2], b[|b| - 2..];
      BigEndianConcat(a, b');
      BigEndianConcatStep(a, b);
      assert BigEndianBytes(b) == [ChunkByte(chunk)] + BigEndianBytes(b');
      assert [ChunkByte(chunk)] + (BigEndianBytes(b') + BigEndianBytes(a))
          == ([ChunkByte(chunk)] + BigEndianBytes(b')) + BigEndianBytes(a);
    }
  }

  lemma {:induction false} BadChunksConcat(a: string, b: string)
    requires |b| % 2 == 0
    ensures BadChunks(a + b) == BadChunks(b) + BadChunks(a)
    decreases |b|
  {
    if b == [] {
      assert a + b == a;
    } else {
      var b', chunk := b[..|b| - 2], b[|b| - 2..];
      BadChunksConcat(a, b');
      ConcatStep(a, b);
      BigEndianStep(a + b);
      BigEndianStep(b);
      var bad := if ValidChunk(chunk) then [] else [chunk];
      assert bad + (BadChunks(b') + BadChunks(a)) == (bad + BadChunks(b')) + BadChunks(a);
    }
  }

  /** The loop's first step on `a + b` reads the last chunk of `b`. */
  lemma BigEndianConcatStep(a: string, b: string)
    requires |b| >= 2
    ensures BigEndianBytes(a + b) == [ChunkByte(b[|b| - 2..])] + BigEndianBytes(a + b[..|b| - 2])
  {
    ConcatStep(a, b);
  }

  /** The last chunk of `a + b` is that of `b`, and what precedes it is `a`
      followed by the rest of `b`. */
  lemma ConcatStep(a: string, b: string)
    requires |b| >= 2
    ensures (a + b)[|a + b| - 2..] == b[|b| - 2..]
    ensures (a + b)[..|a + b| - 2] == a + b[..|b| - 2]
  {
  }

  /** On text the strict decoder accepts, the big-endian loop yields the
      same bytes in reverse order and no warning. */
  lemma {:induction false} BigIsReverseOfLittle(data: string)
    requires FromHex(data).Ok?
    ensures BigEndianBytes(data) == Reverse(FromHex(data).value)
    ensures BadChunks(data) == []
    decreases |data|
  {
    if data != [] {
      var head, tail := data[..2], data[2..];
      BigIsReverseOfLittle(tail);
      FromHexOk(tail);
      assert data == head + tail;
      BigEndianConcat(head, tail);
      BadChunksConcat(head, tail);
      assert BigEndianBytes(head) == [ChunkByte(head)] by {
        assert head[|head| - 2..] == head && head[..|head| - 2] == [];
      }
      var little := FromHex(data).value;
      assert little == [ChunkByte(head)] + FromHex(tail).value;
      assert little[1..] == FromHex(tail).value;
    }
  }

  /** Writing bytes as hex and decoding them strictly gives them back. */
  lemma {:induction false} FromHexText(bs: seq<Byte>)
    ensures FromHex(HexText(bs)) == Ok(bs)
  {
    if bs != [] {
      var s := HexText(bs);
      FromHexText(bs[1..]);
      assert s[..2] == ByteHex(bs[0]);
      assert s[2..] == HexText(bs[1..]);
      ChunkByteRoundTrip(bs[0]);
      assert bs == [bs[0]] + bs[1..];
    }
  }

  /** The end-to-end reading of a memory dump: the big-endian loop turns the
      hex text of `bs` into `bs` reversed. */
  lemma BigEndianOfHexText(bs: seq<Byte>)
    ensures BigEndianBytes(HexText(bs)) == Reverse(bs)
  {
    FromHexText(bs);
    BigIsReverseOfLittle(HexText(bs));
  }

  // ---------------------------------------------------------------------
  // get_bytes_from_hexstr and get_word_size
  // ---------------------------------------------------------------------

  /** One turn of the loop: the prefix ending at `end` is its last chunk
      followed by the prefix ending two characters earlier. */
  lemma LoopStep(data: string, end: nat)
    requires 2 <= end <= |data|
    ensures var chunk := data[end - 2..end];
      && BigEndianBytes(data[..end]) == [ChunkByte(chunk)] + BigEndianBytes(data[..end - 2])
      && BadChunks(data[..end]) == (if ValidChunk(chunk) then [] else [chunk]) + BadChunks(data[..end - 2])
  {
    var prefix := data[..end];
    assert prefix[|prefix| - 2..] == data[end - 2..end];
    assert prefix[..|prefix| - 2] == data[..end - 2];
  }

  /** Moving the next part of a result onto the accumulator. */
  lemma Regroup<T>(acc: seq<T>, next: seq<T>, rest: seq<T>)
    ensures acc + (next + rest) == (acc + next) + rest
  {
  }

  /** `get_bytes_from_hexstr`: `fromhex` for "little", otherwise the
      right-to-left loop, which also reports each chunk it replaced by 0. */
  method GetBytesFromHexStr(data: string, endian: string) returns (r: Result<seq<Byte>>, warnings: seq<string>)
    ensures endian == "little" ==> r == FromHex(data) && warnings == []
    ensures endian != "little" ==> r == Ok(BigEndianBytes(data)) && warnings == BadChunks(data)
  {
    if endian == "little" {
      return FromHex(data), [];
    }
    var arr;
    arr, warnings := BigEndianLoop(data);
    return Ok(arr), warnings;
  }

  /** The big-endian branch of `get_bytes_from_hexstr`: the while loop
      moving `start` and `end` two characters to the left at a time. */
  method BigEndianLoop(data: string) returns (arr: seq<Byte>, warnings: seq<string>)
    ensures arr == BigEndianBytes(data) && warnings == BadChunks(data)
  {
    var wdSize := |data|;
    var start := wdSize - 2;
    var end := wdSize;
    arr := [];
    warnings := [];
    assert data[..end] == data;
    while start >= 0
      invariant end == start + 2 && 0 <= end <= wdSize
      invariant arr + BigEndianBytes(data[..end]) == BigEndianBytes(data)
      invariant warnings + BadChunks(data[..end]) == BadChunks(data)
      decreases start
    {
      var chunk := data[start..end];
      LoopStep(data, end);
      var byte: Byte := 0;
      if ValidChunk(chunk) {
        byte := ChunkByte(chunk);
        Regroup(warnings, [], BadChunks(data[..start]));
      } else {
        Regroup(warnings, [chunk], BadChunks(data[..start]));
        warnings := warnings + [chunk];
      }
      Regroup(arr, [byte], BigEndianBytes(data[..start]));
      arr := arr + [byte];
      end := start;
      start := start - 2;
    }
    assert BigEndianBytes(data[..end]) == [] && BadChunks(data[..end]) == [];
    assert arr + [] == arr && warnings + [] == warnings;
  }

  /** What `get_word_size` decides: the length of the first word when it is
      even and every word has it; ValueError otherwise, the odd length
      being reported first. */
  function WordSize(words: seq<string>): (r: Result<nat>)
    requires |words| > 0
  {
    var size := |words[0]|;
    if size % 2 != 0 then Err(InvalidWordSize(size))
    else if forall i :: 0 <= i < |words| ==> |words[i]| == size then Ok(size)
    else Err(InconsistentWordSize)
  }

  /** `get_word_size`, with its loop and early raises. */
  method GetWordSize(words: seq<string>) returns (r: Result<nat>)
    requires |words| > 0
    ensures r == WordSize(words)
  {
    var size := |words[0]|;
    if size % 2 != 0 {
      return Err(InvalidWordSize(size));
    }
    for i := 0 to |words|
      invariant forall j :: 0 <= j < i ==> |words[j]| == size
    {
      if |words[i]| != size {
        return Err(InconsistentWordSize);
      }
    }
    return Ok(size);
  }

  /** Words of an accepted size each give half that many bytes, with no
      character left over. */
  lemma WordSizeBytes(words: seq<string>)
    requires |words| > 0 && WordSize(words).Ok?
    ensures var n := WordSize(words).value;
      n % 2 == 0 && forall i :: 0 <= i < |words| ==> 2 * |BigEndianBytes(words[i])| == n
  {
  }

  /** The words are rejected as inconsistent exactly when the first has
      even length and some word differs from it. */
  lemma WordSizeErrors(words: seq<string>)
    requires |words| > 0
    ensures WordSize(words) == Err(InvalidWordSize(|words[0]|)) <==> |words[0]| % 2 == 1
    ensures WordSize(words) == Err(InconsistentWordSize) <==>
      |words[0]| % 2 == 0 && exists i :: 0 <= i < |words| && |words[i]| != |words[0]|
  {
  }

  // ---------------------------------------------------------------------
  // Worked values
  // ---------------------------------------------------------------------

  lemma BigEndianExamples()
    ensures BigEndianBytes("00fa") == [0xfa, 0x00]
    ensures BigEndianBytes("0c0d0e") == [0x0e, 0x0d, 0x0c]
  {
    BigEndianTwo("00fa", "00", "fa");
    BigEndianTwo("0c0d0e", "0c0d", "0e");
    BigEndianTwo("0c0d", "0c", "0d");
  }

  /** The bytes of a word whose last chunk is `chunk`. */
  lemma BigEndianTwo(data: string, init: string, chunk: string)
    requires |chunk| == 2 && data == init + chunk
    ensures BigEndianBytes(data) == [ChunkByte(chunk)] + BigEndianBytes(init)
  {
    assert data[|data| - 2..] == chunk && data[..|data| - 2] == init;
  }

  /** Chunks `int` rejects become 0 and are reported. */
  lemma BigEndianBadChunkExamples()
    ensures BigEndianBytes("0$") == [0] && BadChunks("0$") == ["0$"]
    ensures BigEndianBytes("fx") == [0] && BadChunks("fx") == ["fx"]
  {
  }

  /** The leading character of an odd-length word is never read. */
  lemma BigEndianOddExample()
    ensures BigEndianBytes("abc") == [0xbc] && BadChunks("abc") == []
  {
  }

  lemma LittleEndianExamples()
    ensures FromHex("00fa") == Ok([0x00, 0xfa])
    ensures FromHex("abc") == Err(NonHexData)
  {
    assert "fa"[..2] == "fa" && "fa"[2..] == [];
    assert ValidChunk("fa") && ChunkByte("fa") == 0xfa;
    var last := FromHex("fa");
    assert last.Ok? && last.value == [0xfa];
    assert "00fa"[..2] == "00" && "00fa"[2..] == "fa";
    assert ValidChunk("00") && ChunkByte("00") == 0;
    var whole := FromHex("00fa");
    assert whole.Ok? && whole.value == [0x00, 0xfa];
  }
}
