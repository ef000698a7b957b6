/** `ManimRenderer.base64ToBlob` after `atob`: the decoded binary string is
    cut into slices of at most `sliceSize` characters, each slice's char
    codes are copied into a number array by index and turned into a
    `Uint8Array`, and the arrays become the parts of the blob. */
module Blob {
  import opened Text

  newtype byte = x: int | 0 <= x < 256

  /** The source passes no slice size, so the default is used. */
  const SliceSize: nat := 512

  /** The conversion `new Uint8Array(numbers)` applies to each number: modulo 256. */
  function ToUint8(n: int): byte {
    (n % 256) as byte
  }

  /** `new Uint8Array(numbers)`. */
  function Uint8ArrayOf(numbers: seq<int>): (bytes: seq<byte>)
    ensures |bytes| == |numbers|
    ensures forall i :: 0 <= i < |numbers| ==> bytes[i] == ToUint8(numbers[i])
  {
    seq(|numbers|, i requires 0 <= i < |numbers| => ToUint8(numbers[i]))
  }

  /** The bytes of a binary string: each char code, as `Uint8Array` stores it. */
  function CharCodes(s: string): (bytes: seq<byte>)
    ensures |bytes| == |s|
  {
    if s == [] then [] else [ToUint8(s[0] as int)] + CharCodes(s[1..])
  }

  lemma {:induction false} CharCodesAt(s: string, i: nat)
    requires i < |s|
    ensures CharCodes(s)[i] == ToUint8(s[i] as int)
  {
    if i > 0 { CharCodesAt(s[1..], i - 1); }
  }

  /** What `atob` returns: every character is one byte, below 256, so it
      is also a single UTF-16 code unit and `charCodeAt` reads it as it is. */
  predicate BinaryString(s: string) {
    forall i :: 0 <= i < |s| ==> s[i] as int < 256
  }

  /** On a binary string the modulo of `Uint8Array` changes nothing: each
      byte is the character's code. */
  lemma BinaryStringBytes(s: string)
    requires BinaryString(s)
    ensures forall i :: 0 <= i < |s| ==> CharCodes(s)[i] as int == s[i] as int
  {
    forall i | 0 <= i < |s| ensures CharCodes(s)[i] as int == s[i] as int {
      CharCodesAt(s, i);
    }
  }

  lemma {:induction false} CharCodesAppend(a: string, b: string)
    ensures CharCodes(a + b) == CharCodes(a) + CharCodes(b)
  {
    if a == [] {
      assert a + b == b;
    } else {
      assert (a + b)[0] == a[0] && (a + b)[1..] == a[1..] + b;
      assert CharCodes(a + b) == [ToUint8(a[0] as int)] + CharCodes(a[1..] + b);
      CharCodesAppend(a[1..], b);
      assert CharCodes(a) == [ToUint8(a[0] as int)] + CharCodes(a[1..]);
    }
  }

  /** The blob: its parts, in order, and its MIME type. */
  datatype Blob = Blob(parts: seq<seq<byte>>, contentType: string)

  /** The bytes a blob holds. */
  function Flatten(parts: seq<seq<byte>>): seq<byte> {
    if parts == [] then [] else parts[0] + Flatten(parts[1..])
  }

  // ---------------------------------------------------------------------
  // The slices the loop produces

  /** `s` cut into consecutive slices of `size` characters, the last one
      shorter when `|s|` is not a multiple of `size`. */
  function Chunks(s: string, size: nat): seq<string>
    requires size > 0
    decreases |s|
  {
    if s == [] then []
    else if |s| <= size then [s]
    else [s[..size]] + Chunks(s[size..], size)
  }

  function CodesOf(slices: seq<string>): (arrays: seq<seq<byte>>)
    ensures |arrays| == |slices|
  {
    if slices == [] then [] else [CharCodes(slices[0])] + CodesOf(slices[1..])
  }

  /** Part `k` holds the char codes of slice `k`. */
  lemma {:induction false} CodesOfAt(slices: seq<string>, k: nat)
    requires k < |slices|
    ensures CodesOf(slices)[k] == CharCodes(slices[k])
  {
    if k > 0 {
      CodesOfAt(slices[1..], k - 1);
    }
  }

  /** The slices put back together give the string. */
  lemma {:induction false} ChunksConcat(s: string, size: nat)
    requires size > 0
    ensures Concat(Chunks(s, size)) == s
    decreases |s|
  {
    if |s| > size {
      ChunksConcat(s[size..], size);
      assert s[..size] + s[size..] == s;
    }
  }

  /** Every slice is non-empty and at most `size` long, and all but the last
      are exactly `size` long. */
  lemma {:induction false} ChunkLengths(s: string, size: nat)
    requires size > 0
    ensures forall k :: 0 <= k < |Chunks(s, size)| ==> 0 < |Chunks(s, size)[k]| <= size
    ensures forall k :: 0 <= k < |Chunks(s, size)| - 1 ==> |Chunks(s, size)[k]| == size
    decreases |s|
  {
    if |s| > size {
      ChunkLengths(s[size..], size);
      var rest := Chunks(s[size..], size);
      assert Chunks(s, size) == [s[..size]] + rest;
      assert forall k :: 1 <= k < |Chunks(s, size)| ==> Chunks(s, size)[k] == rest[k - 1];
    }
  }

  lemma DivStep(y: nat, size: nat)
    requires size > 0
    ensures (y + size) / size == y / size + 1
  {
    var q, r := y / size, y % size;
    assert y + size == (q + 1) * size + r;
    DivUnique(y + size, size, q + 1, r);
  }

  lemma DivUnique(x: nat, size: nat, q: int, r: int)
    requires size > 0 && 0 <= r < size && x == q * size + r
    ensures x / size == q
  {
    var q', r' := x / size, x % size;
    assert (q' - q) * size == r - r' by {
      assert q' * size + r' == q * size + r;
      assert (q' - q) * size == q' * size - q * size;
    }
    if q' > q {
      MultipleAtLeast(q' - q, size);
    } else if q' < q {
      MultipleAtLeast(q - q', size);
    }
  }

  lemma MultipleAtLeast(m: int, size: nat)
    requires m >= 1
    ensures m * size >= size
  {
    assert m * size == (m - 1) * size + size;
    assert (m - 1) * size >= 0;
  }

  /** There are ceil(|s| / size) slices: none for the empty string. */
  lemma {:induction false} ChunkCount(s: string, size: nat)
    requires size > 0
    ensures |Chunks(s, size)| == (|s| + size - 1) / size
    decreases |s|
  {
    if s == [] {
      DivUnique(size - 1, size, 0, size - 1);
    } else if |s| <= size {
      DivUnique(|s| + size - 1, size, 1, |s| - 1);
    } else {
      ChunkCount(s[size..], size);
      DivStep(|s| - 1, size);
    }
  }

  /** Character `i` of slice `k` is character `k * size + i` of the string. */
  lemma {:induction false} ChunkAt(s: string, size: nat, k: nat, i: nat)
    requires size > 0
    requires k < |Chunks(s, size)| && i < |Chunks(s, size)[k]|
    ensures k * size + i < |s| && Chunks(s, size)[k][i] == s[k * size + i]
    decreases |s|
  {
    if k > 0 {
      var rest := s[size..];
      assert |s| > size;
      assert Chunks(s, size)[k] == Chunks(rest, size)[k - 1];
      ChunkAt(rest, size, k - 1, i);
      var j := (k - 1) * size + i;
      assert k * size + i == size + j by {
        assert k * size == (k - 1) * size + size;
      }
      assert rest[j] == s[size + j];
    }
  }

  lemma {:induction false} FlattenCodes(slices: seq<string>)
    ensures Flatten(CodesOf(slices)) == CharCodes(Concat(slices))
  {
    if slices != [] {
      FlattenCodes(slices[1..]);
      assert CodesOf(slices)[1..] == CodesOf(slices[1..]);
      CharCodesAppend(slices[0], Concat(slices[1..]));
    }
  }

  /** The slice the loop takes at `offset`, and the rest after it. */
  lemma ChunksFrom(s: string, size: nat, offset: nat)
    requires size > 0 && offset < |s|
    ensures var next := if offset + size < |s| then offset + size else |s|;
      Chunks(s[offset..], size) == [s[offset..next]] + Chunks(s[next..], size)
  {
    var rest := s[offset..];
    if |rest| > size {
      assert rest[..size] == s[offset..offset + size];
      assert rest[size..] == s[offset + size..];
    } else {
      assert offset + size >= |s|;
      assert s[offset..|s|] == rest;
      assert s[|s|..] == [];
    }
  }

  // ---------------------------------------------------------------------
  // The loops

  /** The inner loop: `byteNumbers[i] = slice.charCodeAt(i)`, then
      `new Uint8Array(byteNumbers)`. */
  method SliceToBytes(slice: string) returns (byteArray: seq<byte>)
    ensures byteArray == CharCodes(slice)
  {
    var byteNumbers := new int[|slice|];
    for i := 0 to |slice|
      invariant forall j :: 0 <= j < i ==> byteNumbers[j] == slice[j] as int
    {
      byteNumbers[i] := slice[i] as int;
    }
    byteArray := Uint8ArrayOf(byteNumbers[..]);
    forall i | 0 <= i < |slice| ensures byteArray[i] == CharCodes(slice)[i] {
      CharCodesAt(slice, i);
    }
  }

  /** The bytes of the slices from `offset` on: the next slice's bytes first. */
  lemma CodesFrom(s: string, size: nat, offset: nat)
    requires size > 0 && offset < |s|
    ensures var next := if offset + size < |s| then offset + size else |s|;
      CodesOf(Chunks(s[offset..], size)) == [CharCodes(s[offset..next])] + CodesOf(Chunks(s[next..], size))
  {
    var next := if offset + size < |s| then offset + size else |s|;
    ChunksFrom(s, size, offset);
    var later := Chunks(s[next..], size);
    assert ([s[offset..next]] + later)[1..] == later;
  }

  /** `base64ToBlob` from the decoded string on: the blob's parts are the
      slices' bytes; together they are the string's bytes in order. */
  method Base64ToBlob(byteCharacters: string, contentType: string, sliceSize: nat) returns (blob: Blob)
    requires BinaryString(byteCharacters)
    requires sliceSize > 0
    ensures blob.contentType == contentType
    ensures blob.parts == CodesOf(Chunks(byteCharacters, sliceSize))
    ensures Flatten(blob.parts) == CharCodes(byteCharacters)
    ensures forall i :: 0 <= i < |byteCharacters| ==> Flatten(blob.parts)[i] as int == byteCharacters[i] as int
    ensures |blob.parts| == (|byteCharacters| + sliceSize - 1) / sliceSize
    ensures forall k :: 0 <= k < |blob.parts| ==> 0 < |blob.parts[k]| <= sliceSize
    ensures forall k :: 0 <= k < |blob.parts| - 1 ==> |blob.parts[k]| == sliceSize
  {
    var n := |byteCharacters|;
    var byteArrays: seq<seq<byte>> := [];
    var offset := 0;
    ghost var rest := byteCharacters;
    while offset < n
      invariant offset < n ==> rest == byteCharacters[offset..]
      invariant offset >= n ==> rest == []
      invariant byteArrays + CodesOf(Chunks(rest, sliceSize)) == CodesOf(Chunks(byteCharacters, sliceSize))
      decreases n - offset
    {
      var next := if offset + sliceSize < n then offset + sliceSize else n;
      var slice := byteCharacters[offset..next];
      var byteArray := SliceToBytes(slice);
      CodesFrom(byteCharacters, sliceSize, offset);
      ghost var later := CodesOf(Chunks(byteCharacters[next..], sliceSize));
      assert byteArrays + ([byteArray] + later) == (byteArrays + [byteArray]) + later;
      byteArrays := byteArrays + [byteArray];
      offset := offset + sliceSize;
      assert next == n ==> byteCharacters[next..] == [];
      rest := byteCharacters[next..];
    }
    blob := Blob(byteArrays, contentType);
    BlobParts(byteCharacters, sliceSize);
    BinaryStringBytes(byteCharacters);
  }

  /** The parts cut from a string: its bytes in order, as many as
      `ceil(n / size)`, each non-empty and at most `size` long, all but the
      last exactly `size` long. */
  lemma BlobParts(s: string, size: nat)
    requires size > 0
    ensures var parts := CodesOf(Chunks(s, size));
      && Flatten(parts) == CharCodes(s)
      && |parts| == (|s| + size - 1) / size
      && (forall k :: 0 <= k < |parts| ==> 0 < |parts[k]| <= size)
      && (forall k :: 0 <= k < |parts| - 1 ==> |parts[k]| == size)
  {
    var chunks := Chunks(s, size);
    FlattenCodes(chunks);
    ChunksConcat(s, size);
    ChunkCount(s, size);
    ChunkLengths(s, size);
    forall k | 0 <= k < |chunks| ensures |CodesOf(chunks)[k]| == |chunks[k]| {
      CodesOfAt(chunks, k);
    }
  }

  /** Byte `i` of part `k` is the char code at position `k * sliceSize + i`. */
  lemma PartByteAt(s: string, sliceSize: nat, k: nat, i: nat)
    requires sliceSize > 0
    requires k < |Chunks(s, sliceSize)| && i < |Chunks(s, sliceSize)[k]|
    ensures k * sliceSize + i < |s|
    ensures CodesOf(Chunks(s, sliceSize))[k] == CharCodes(Chunks(s, sliceSize)[k])
    ensures CodesOf(Chunks(s, sliceSize))[k][i] == ToUint8(s[k * sliceSize + i] as int)
  {
    ChunkAt(s, sliceSize, k, i);
    CodesOfAt(Chunks(s, sliceSize), k);
    CharCodesAt(Chunks(s, sliceSize)[k], i);
  }
}
