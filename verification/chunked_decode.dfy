/** `decodeBase64Chunks` of the speech-to-text proxy: the base64 text is cut into slices of
    `chunkSize` characters, each slice goes through `atob` and its character codes are copied
    into a byte array, and the per-slice arrays are then copied, in order and at a running
    offset, into one buffer whose length is the sum of theirs. */
module ChunkedDecode {

  import opened Optional
  import opened Base64

  /** The slice length the proxy uses (its default argument); a multiple of four. */
  const DefaultChunkSize: nat := 32768

  function Min(a: int, b: int): int
  {
    if a <= b then a else b
  }

  // ---------------------------------------------------------------------------------------
  // Slicing
  // ---------------------------------------------------------------------------------------

  /** The slices `s.slice(i, i + k)` for i = 0, k, 2k, ... while i < |s|. */
  function Slices(s: string, k: nat): (r: seq<string>)
    requires k > 0
    ensures |s| == 0 <==> |r| == 0
    decreases |s|
  {
    if |s| == 0 then []
    else [s[..Min(k, |s|)]] + Slices(s[Min(k, |s|)..], k)
  }

  /** Left-to-right concatenation, the layout `result.set(chunk, offset)` produces. */
  function Flatten<T>(cs: seq<seq<T>>): (r: seq<T>)
    ensures |r| == SumLengths(cs)
    decreases |cs|
  {
    if |cs| == 0 then [] else Flatten(cs[..|cs| - 1]) + cs[|cs| - 1]
  }

  /** `chunks.reduce((sum, c) => sum + c.length, 0)`. */
  function SumLengths<T>(cs: seq<seq<T>>): nat
    decreases |cs|
  {
    if |cs| == 0 then 0 else SumLengths(cs[..|cs| - 1]) + |cs[|cs| - 1]|
  }

  /** Flattening a sequence that starts with `c` starts with `c`. */
  lemma {:induction false} FlattenCons<T>(c: seq<T>, cs: seq<seq<T>>)
    ensures Flatten([c] + cs) == c + Flatten(cs)
    decreases |cs|
  {
    if |cs| > 0 {
      var all := [c] + cs;
      assert all[..|all| - 1] == [c] + cs[..|cs| - 1];
      FlattenCons(c, cs[..|cs| - 1]);
    } else {
      assert [c] + cs == [c];
      assert [c][..0] == [];
    }
  }

  /** The slices tile the input: they are non-empty, every slice but the last has exactly `k`
      characters, the last has at most `k`, and together, in order, they are the input. */
  lemma SlicesTile(s: string, k: nat)
    requires k > 0
    ensures Flatten(Slices(s, k)) == s
    ensures forall j :: 0 <= j < |Slices(s, k)| ==> 0 < |Slices(s, k)[j]| <= k
    ensures forall j :: 0 <= j < |Slices(s, k)| - 1 ==> |Slices(s, k)[j]| == k
  {
    SlicesConcatenate(s, k);
    SliceLengths(s, k);
  }

  /** The slices, concatenated in order, are the input. */
  lemma {:induction false} SlicesConcatenate(s: string, k: nat)
    requires k > 0
    ensures Flatten(Slices(s, k)) == s
    decreases |s|
  {
    if |s| > 0 {
      var m := Min(k, |s|);
      var rest := Slices(s[m..], k);
      SlicesConcatenate(s[m..], k);
      assert Slices(s, k) == [s[..m]] + rest;
      FlattenCons(s[..m], rest);
      assert s[..m] + s[m..] == s;
    }
  }

  /** Every slice has between 1 and `k` characters, and all but the last exactly `k`. */
  lemma {:induction false} SliceLengths(s: string, k: nat)
    requires k > 0
    ensures forall j :: 0 <= j < |Slices(s, k)| ==> 0 < |Slices(s, k)[j]| <= k
    ensures forall j :: 0 <= j < |Slices(s, k)| - 1 ==> |Slices(s, k)[j]| == k
    decreases |s|
  {
    if |s| > 0 {
      var m := Min(k, |s|);
      var sl, rest := Slices(s, k), Slices(s[m..], k);
      SliceLengths(s[m..], k);
      assert sl == [s[..m]] + rest;
      forall j | 0 <= j < |sl|
        ensures 0 < |sl[j]| <= k && (j < |sl| - 1 ==> |sl[j]| == k)
      {
        if j > 0 {
          assert sl[j] == rest[j - 1];
        }
      }
    }
  }

  /** Slice `j` is `s.slice(j * k, j * k + k)`: the slices start at the offsets 0, k, 2k, ... */
  lemma {:induction false} SliceAt(s: string, k: nat, j: nat)
    requires k > 0
    requires j < |Slices(s, k)|
    ensures j * k < |s|
    ensures Slices(s, k)[j] == s[j * k .. Min(j * k + k, |s|)]
    decreases |s|
  {
    var m := Min(k, |s|);
    var slices := Slices(s, k);
    assert slices == [s[..m]] + Slices(s[m..], k);
    if j > 0 {
      var rest := s[m..];
      SliceAt(rest, k, j - 1);
      var p, q := (j - 1) * k, j * k;
      var e := Min(p + k, |rest|);
      assert slices[j] == Slices(rest, k)[j - 1] == rest[p..e];
      assert m == k && m + p == q && m + e == Min(q + k, |s|) by {
        NextOffset(j, k);
      }
      SliceOfSuffix(s, m, p, e);
    }
  }

  /** A slice of a suffix is a slice of the whole, shifted by where the suffix starts. */
  lemma SliceOfSuffix(s: string, m: nat, lo: nat, hi: nat)
    requires m <= |s| && lo <= hi <= |s| - m
    ensures s[m..][lo..hi] == s[m + lo .. m + hi]
  {
  }

  /** The start of slice j is one slice length past the start of slice j - 1. */
  lemma NextOffset(j: nat, k: nat)
    requires j > 0
    ensures (j - 1) * k + k == j * k
  {
  }

  // ---------------------------------------------------------------------------------------
  // Decoding one slice
  // ---------------------------------------------------------------------------------------

  /** Storing a character code into a `Uint8Array` keeps it modulo 256 (ToUint8). */
  function ToUint8(code: nat): Byte
  {
    code % 256
  }

  /** `bytes[j] = binary.charCodeAt(j)` for every j, into a fresh `Uint8Array`. */
  function CharCodes(binary: string): (bytes: seq<Byte>)
    ensures |bytes| == |binary|
  {
    seq(|binary|, j requires 0 <= j < |binary| => ToUint8(binary[j] as nat))
  }

  /** `atob` of one slice followed by the character-code copy; `None` when `atob` throws. */
  function DecodeSlice(slice: string): (r: Option<seq<Byte>>)
    ensures r.Some? <==> Atob(slice).Some?
  {
    match Atob(slice)
    case None => None
    case Some(binary) => Some(CharCodes(binary))
  }

  /** The copy through character codes loses nothing: every code `atob` produces is below 256,
      so each byte is that code, and the slice's array equals the bytes `atob` decoded. */
  lemma DecodeSliceIsDecode(slice: string)
    ensures DecodeSlice(slice) == Decode(slice)
  {
    match Decode(slice)
    case None =>
    case Some(bytes) =>
      var binary := BinaryString(bytes);
      var codes := CharCodes(binary);
      forall j | 0 <= j < |bytes|
        ensures codes[j] == bytes[j]
      {
        assert binary[j] as int == bytes[j];
      }
      assert codes == bytes;
  }

  /** The per-slice arrays, in slice order; the first slice `atob` rejects makes the whole
      call throw. */
  function DecodeSlices(slices: seq<string>): (r: Option<seq<seq<Byte>>>)
    ensures r.Some? <==> forall j :: 0 <= j < |slices| ==> DecodeSlice(slices[j]).Some?
    ensures r.Some? ==> |r.value| == |slices|
    ensures r.Some? ==> forall j :: 0 <= j < |slices| ==> r.value[j] == DecodeSlice(slices[j]).value
    decreases |slices|
  {
    if |slices| == 0 then Some([])
    else
      match DecodeSlice(slices[0])
      case None => None
      case Some(bytes) =>
        match DecodeSlices(slices[1..])
        case None => None
        case Some(rest) => Some([bytes] + rest)
  }

  // ---------------------------------------------------------------------------------------
  // The whole decoder
  // ---------------------------------------------------------------------------------------

  /** `decodeBase64Chunks(base64, chunkSize)`; `None` when an `atob` call throws.
      A `chunkSize` of zero would make the source loop forever, hence `chunkSize > 0`. */
  function DecodeBase64Chunks(base64: string, chunkSize: nat): (r: Option<seq<Byte>>)
    requires chunkSize > 0
  {
    match DecodeSlices(Slices(base64, chunkSize))
    case None => None
    case Some(chunks) => Some(Flatten(chunks))
  }

  /** The empty payload gives an empty buffer: no slice, and a total length of 0. */
  lemma EmptyInput(chunkSize: nat)
    requires chunkSize > 0
    ensures DecodeBase64Chunks("", chunkSize) == Some([])
  {
  }

  /** Whether `atob` accepts every slice. */
  predicate AllSlicesDecode(slices: seq<string>)
  {
    forall j :: 0 <= j < |slices| ==> Decode(slices[j]).Some?
  }

  /** The bytes of every slice, in slice order, computed slice by slice. */
  function SliceDecodes(slices: seq<string>): (ds: seq<seq<Byte>>)
    requires AllSlicesDecode(slices)
  {
    seq(|slices|, j requires 0 <= j < |slices| && Decode(slices[j]).Some? => Decode(slices[j]).value)
  }

  /** The call throws exactly when `atob` rejects some slice; otherwise the result is the
      concatenation, in input order, of the slices' decoded bytes, and its length is the sum of
      their lengths. (`ChunkAtOffset` locates each slice's bytes at its running offset.) */
  lemma ResultIsOrderedConcatenation(base64: string, chunkSize: nat)
    requires chunkSize > 0
    ensures DecodeBase64Chunks(base64, chunkSize).Some? <==> AllSlicesDecode(Slices(base64, chunkSize))
    ensures DecodeBase64Chunks(base64, chunkSize).Some? ==>
      && DecodeBase64Chunks(base64, chunkSize).value == Flatten(SliceDecodes(Slices(base64, chunkSize)))
      && |DecodeBase64Chunks(base64, chunkSize).value| == SumLengths(SliceDecodes(Slices(base64, chunkSize)))
  {
    var slices := Slices(base64, chunkSize);
    forall j | 0 <= j < |slices|
      ensures DecodeSlice(slices[j]) == Decode(slices[j])
    {
      DecodeSliceIsDecode(slices[j]);
    }
    var d := DecodeSlices(slices);
    if d.Some? {
      assert d.value == SliceDecodes(slices);
    }
  }

  /** Flattening a prefix of the chunks gives a prefix of the flattened chunks. */
  lemma {:induction false} FlattenPrefix<T>(cs: seq<seq<T>>, n: nat)
    requires n <= |cs|
    ensures Flatten(cs[..n]) <= Flatten(cs)
    decreases |cs|
  {
    if n < |cs| {
      var init := cs[..|cs| - 1];
      assert init[..n] == cs[..n];
      FlattenPrefix(init, n);
    } else {
      assert cs[..n] == cs;
    }
  }

  /** Chunk `j` is written at the offset given by the lengths of the chunks before it. */
  lemma ChunkAtOffset<T>(cs: seq<seq<T>>, j: nat)
    requires j < |cs|
    ensures SumLengths(cs[..j]) + |cs[j]| == SumLengths(cs[..j + 1]) <= |Flatten(cs)|
    ensures Flatten(cs)[SumLengths(cs[..j]) .. SumLengths(cs[..j + 1])] == cs[j]
  {
    var pre := cs[..j + 1];
    assert pre[..j] == cs[..j];
    FlattenPrefix(cs, j + 1);
    assert Flatten(pre) == Flatten(cs[..j]) + cs[j];
  }

  // ---------------------------------------------------------------------------------------
  // Chunked decoding against decoding the whole string
  // ---------------------------------------------------------------------------------------

  /** A full slice in front of more input lies before any padding of a string `atob` accepts,
      when the slice length is a multiple of four. */
  lemma FirstSliceIsClean(s: string, k: nat)
    requires 0 < k < |s| && k % 4 == 0
    requires Decode(s).Some?
    ensures AllAlphabet(s[..k])
  {
    var t := StripPadding(s);
    assert AllAlphabet(t);
    if t != s {
      assert |s| % 4 == 0;
      assert k == 4 * (k / 4) && |s| == 4 * (|s| / 4);
      assert |s| >= k + 4;
    }
    assert k <= |t|;
    forall i | 0 <= i < k
      ensures IsAlphabetChar(s[..k][i])
    {
      assert s[..k][i] == t[i];
    }
  }

  /** The decoder's first step on a long input: the first slice, then the slices of the rest. */
  lemma ChunkedUnfold(s: string, k: nat)
    requires 0 < k < |s|
    ensures DecodeBase64Chunks(s, k).Some? <==>
      Decode(s[..k]).Some? && DecodeBase64Chunks(s[k..], k).Some?
    ensures DecodeBase64Chunks(s, k).Some? ==>
      DecodeBase64Chunks(s, k).value == Decode(s[..k]).value + DecodeBase64Chunks(s[k..], k).value
  {
    var slices := Slices(s, k);
    assert slices == [s[..k]] + Slices(s[k..], k);
    assert slices[1..] == Slices(s[k..], k);
    DecodeSliceIsDecode(s[..k]);
    var rest := DecodeSlices(Slices(s[k..], k));
    if Decode(s[..k]).Some? && rest.Some? {
      FlattenCons(Decode(s[..k]).value, rest.value);
    }
  }

  /** An input no longer than one slice is decoded by a single `atob` call. */
  lemma SingleSlice(s: string, k: nat)
    requires 0 < |s| <= k
    ensures DecodeBase64Chunks(s, k) == Decode(s)
  {
    assert s[..|s|] == s && s[|s|..] == [];
    assert Slices(s, k) == [s];
    DecodeSliceIsDecode(s);
    if Decode(s).Some? {
      var d := Decode(s).value;
      assert [s][1..] == [] && [s][0] == s;
      assert DecodeSlices([]) == Some([]);
      assert [d] + [] == [d];
      assert DecodeSlices([s]) == Some([d]);
      assert Flatten([d]) == d by {
        var none: seq<seq<Byte>> := [];
        assert [d][..0] == none;
      }
    }
  }

  /** When `atob` accepts a string longer than one slice (of a length that is a multiple of
      four), it accepts the first slice and the rest, and its bytes are theirs in order. */
  lemma FirstSliceSplit(s: string, k: nat)
    requires 0 < k < |s| && k % 4 == 0
    requires Decode(s).Some?
    ensures Decode(s[..k]).Some? && Decode(s[k..]).Some?
    ensures Decode(s).value == Decode(s[..k]).value + Decode(s[k..]).value
  {
    var a, b := s[..k], s[k..];
    assert s == a + b;
    FirstSliceIsClean(s, k);
    DecodeAppend(a, b);
    DecodeCleanQuanta(a);
  }

  /** With a slice length that is a positive multiple of four, the chunked decoder returns what
      `atob` returns for the whole string, whenever `atob` accepts the whole string. */
  lemma {:induction false} ChunkedMatchesDecode(s: string, k: nat)
    requires k > 0 && k % 4 == 0
    requires Decode(s).Some?
    ensures DecodeBase64Chunks(s, k) == Decode(s)
    decreases |s|
  {
    if |s| == 0 {
      assert Slices(s, k) == [];
      assert StripPadding(s) == s;
    } else if |s| <= k {
      SingleSlice(s, k);
    } else {
      FirstSliceSplit(s, k);
      ChunkedMatchesDecode(s[k..], k);
      ChunkedUnfold(s, k);
    }
  }

  /** Whatever `atob` of the whole string rejects is rejected chunk-wise or accepted
      chunk-wise, but whatever the chunked decoder rejects, `atob` of the whole string rejects. */
  lemma ChunkedRejectionImpliesWholeRejection(s: string, k: nat)
    requires k > 0 && k % 4 == 0
    requires DecodeBase64Chunks(s, k).None?
    ensures Decode(s).None?
  {
    if Decode(s).Some? {
      ChunkedMatchesDecode(s, k);
    }
  }

  /** Encode-then-decode round trip through the chunked decoder, for every positive multiple of
      four as slice length. */
  lemma ChunkedRoundTrip(data: seq<Byte>, k: nat)
    requires k > 0 && k % 4 == 0
    ensures DecodeBase64Chunks(Encode(data), k) == Some(data)
  {
    DecodeEncode(data);
    ChunkedMatchesDecode(Encode(data), k);
  }

  /** The round trip with the slice length the proxy actually uses. */
  lemma DefaultRoundTrip(data: seq<Byte>)
    ensures DecodeBase64Chunks(Encode(data), DefaultChunkSize) == Some(data)
  {
    ChunkedRoundTrip(data, DefaultChunkSize);
  }

  /** The chunked decoder is more lenient than `atob` of the whole string: when the first
      slice is exactly the padded encoding of some bytes, another encoding may follow it. The
      whole string has a '=' before its end, which `atob` rejects; the slices do not. */
  lemma InteriorPaddingAccepted(x: seq<Byte>, y: seq<Byte>, k: nat)
    requires k > 0 && |Encode(x)| == k && |x| % 3 != 0
    requires |y| > 0
    ensures DecodeBase64Chunks(Encode(x) + Encode(y), k) == Some(x + y)
    ensures Decode(Encode(x) + Encode(y)).None?
  {
    var ex, ey := Encode(x), Encode(y);
    EncodeNonEmpty(y);
    assert DecodeBase64Chunks(ex + ey, k) == Some(x + y) by {
      var s := ex + ey;
      assert s[..k] == ex && s[k..] == ey;
      DecodeEncode(x);
      ChunkedRoundTrip(y, k);
      ChunkedUnfold(s, k);
    }
    assert Decode(ex + ey).None? by {
      EncodeEndsWithPad(x);
      InteriorPadRejected(ex, ey);
    }
  }

  /** Some bytes encode to at least one quantum. */
  lemma EncodeNonEmpty(data: seq<Byte>)
    requires |data| > 0
    ensures |Encode(data)| >= 4
  {
    assert |EncodeUnpadded(data)| >= 2;
  }

  /** A final group of one or two bytes leaves a '=' at the end of the encoding. */
  lemma EncodeEndsWithPad(data: seq<Byte>)
    requires |data| % 3 != 0
    ensures |Encode(data)| > 0 && Encode(data)[|Encode(data)| - 1] == PadChar
  {
    var u, p := EncodeUnpadded(data), Padding(|data|);
    assert |p| > 0 && p[|p| - 1] == PadChar;
    assert Encode(data)[|Encode(data)| - 1] == p[|p| - 1];
  }

  /** A '=' before the last quantum makes `atob` throw. */
  lemma InteriorPadRejected(a: string, b: string)
    requires |a| > 0 && a[|a| - 1] == PadChar
    requires |b| % 4 == 0 && |b| >= 4
    ensures Decode(a + b).None?
  {
    var s := a + b;
    var t := StripPadding(s);
    assert s[|a| - 1] == PadChar;
    assert |a| - 1 < |t|;
    assert t[|a| - 1] == PadChar;
  }

  /** A concrete instance with slices of four characters: "QQ==" followed by "QUJD". */
  lemma InteriorPaddingExample()
    ensures DecodeBase64Chunks("QQ==QUJD", 4) == Some([65, 65, 66, 67])
    ensures Decode("QQ==QUJD").None?
  {
    var x: seq<Byte>, y: seq<Byte> := [65], [65, 66, 67];
    ExampleText(x, y);
    InteriorPaddingAccepted(x, y, 4);
  }

  /** "QQ==QUJD" is the encoding of "A" followed by the encoding of "ABC". */
  lemma ExampleText(x: seq<Byte>, y: seq<Byte>)
    requires x == [65] && y == [65, 66, 67]
    ensures |Encode(x)| == 4 && Encode(x) + Encode(y) == "QQ==QUJD"
    ensures x + y == [65, 65, 66, 67]
  {
    assert x + y == [65, 65, 66, 67];
    assert Encode(x) == "QQ==" by {
      EncodeA();
    }
    assert Encode(x) + Encode(y) == "QQ==QUJD" by {
      EncodeABC();
      assert "QQ==" + "QUJD" == "QQ==QUJD";
    }
  }

  /** The encoding of the single byte 65 ("A"). */
  lemma EncodeA()
    ensures Encode([65]) == "QQ=="
  {
    assert SextetToChar(16) == 'Q';
    assert EncodeUnpadded([65]) == [SextetToChar(16), SextetToChar(16)];
  }

  /** The encoding of the bytes 65, 66, 67 ("ABC"). */
  lemma EncodeABC()
    ensures Encode([65, 66, 67]) == "QUJD"
  {
    var y: seq<Byte> := [65, 66, 67];
    assert y[3..] == [];
    assert SextetToChar(16) == 'Q' && SextetToChar(20) == 'U';
    assert SextetToChar(9) == 'J' && SextetToChar(3) == 'D';
    assert EncodeGroup(65, 66, 67) == [SextetToChar(16), SextetToChar(20), SextetToChar(9), SextetToChar(3)];
    assert EncodeUnpadded(y) == EncodeGroup(65, 66, 67) + EncodeUnpadded([]);
  }

  // ---------------------------------------------------------------------------------------
  // The loops of the source
  // ---------------------------------------------------------------------------------------

  /** The input from offset `i` on; nothing once `i` has passed the end. */
  function Rest(s: string, i: nat): string
  {
    if i <= |s| then s[i..] else ""
  }

  /** Decoded arrays collected so far, in front of the outcome of the remaining slices. */
  function Prepend(done: seq<seq<Byte>>, rest: Option<seq<seq<Byte>>>): Option<seq<seq<Byte>>>
  {
    match rest
    case None => None
    case Some(more) => Some(done + more)
  }

  /** One step of the slicing loop: the slice at `i` followed by the slices after it. */
  lemma SlicesStep(s: string, k: nat, i: nat, next: nat)
    requires k > 0 && i < |s| && next == i + k
    ensures Slices(Rest(s, i), k) == [s[i .. Min(next, |s|)]] + Slices(Rest(s, next), k)
  {
    var r := s[i..];
    assert r[..Min(k, |r|)] == s[i .. Min(next, |s|)];
    assert r[Min(k, |r|)..] == Rest(s, next);
  }

  /** The slicing loop's step: the arrays so far, the current slice's array, then the rest. */
  lemma DecodeSlicesStep(done: seq<seq<Byte>>, slice: string, after: seq<string>)
    ensures DecodeSlice(slice).None? ==> Prepend(done, DecodeSlices([slice] + after)).None?
    ensures DecodeSlice(slice).Some? ==>
      Prepend(done, DecodeSlices([slice] + after))
        == Prepend(done + [DecodeSlice(slice).value], DecodeSlices(after))
  {
    assert ([slice] + after)[1..] == after && ([slice] + after)[0] == slice;
    if DecodeSlice(slice).Some? && DecodeSlices(after).Some? {
      var bytes, more := DecodeSlice(slice).value, DecodeSlices(after).value;
      assert done + ([bytes] + more) == (done + [bytes]) + more;
    }
  }

  /** Lines 14-17 of the source: a fresh `Uint8Array` filled with the character codes. */
  method CopyCharCodes(binary: string) returns (bytes: seq<Byte>)
    ensures bytes == CharCodes(binary)
  {
    var arr := new Byte[|binary|];
    var j := 0;
    while j < |binary|
      invariant j <= |binary|
      invariant forall m :: 0 <= m < j ==> arr[m] == ToUint8(binary[m] as nat)
    {
      arr[j] := ToUint8(binary[j] as nat);
      j := j + 1;
    }
    bytes := arr[..];
  }

  /** `chunks.reduce((sum, c) => sum + c.length, 0)` as a loop. */
  method TotalLength(chunks: seq<seq<Byte>>) returns (total: nat)
    ensures total == |Flatten(chunks)|
  {
    total := 0;
    var n := 0;
    while n < |chunks|
      invariant n <= |chunks|
      invariant total == SumLengths(chunks[..n])
    {
      assert chunks[..n + 1][..n] == chunks[..n];
      total := total + |chunks[n]|;
      n := n + 1;
    }
    assert chunks[..n] == chunks;
  }

  /** Lines 22-27 of the source: each chunk is `set` into one buffer at the running offset,
      which then grows by the chunk's length. */
  method CopyAtOffsets(chunks: seq<seq<Byte>>) returns (result: seq<Byte>)
    ensures result == Flatten(chunks)
  {
    var totalLength := TotalLength(chunks);
    var buffer := new Byte[totalLength];
    var offset := 0;
    var n := 0;
    while n < |chunks|
      invariant n <= |chunks|
      invariant offset == |Flatten(chunks[..n])| <= buffer.Length
      invariant buffer[..offset] == Flatten(chunks[..n])
    {
      FlattenSnoc(chunks, n);
      FlattenPrefix(chunks, n + 1);
      var chunk := chunks[n];
      ghost var before := buffer[..offset];
      forall m | 0 <= m < |chunk| {
        buffer[offset + m] := chunk[m];
      }
      assert buffer[..offset + |chunk|] == before + chunk;
      offset := offset + |chunk|;
      n := n + 1;
    }
    assert chunks[..n] == chunks;
    result := buffer[..];
  }

  /** Flattening one more chunk appends it. */
  lemma FlattenSnoc<T>(cs: seq<seq<T>>, n: nat)
    requires n < |cs|
    ensures Flatten(cs[..n + 1]) == Flatten(cs[..n]) + cs[n]
  {
    assert cs[..n + 1][..n] == cs[..n];
  }

  /** The imperative decoder, loop for loop as in the source: slice and decode into per-slice
      arrays, then copy each at the running offset into one buffer. */
  method DecodeBase64ChunksLoop(base64: string, chunkSize: nat) returns (r: Option<seq<Byte>>)
    requires chunkSize > 0
    ensures r == DecodeBase64Chunks(base64, chunkSize)
  {
    var chunks: seq<seq<Byte>> := [];
    var i: nat := 0;
    ghost var whole := DecodeSlices(Slices(base64, chunkSize));
    ghost var pending := Slices(base64, chunkSize);
    assert Rest(base64, 0) == base64;
    if whole.Some? {
      assert chunks + whole.value == whole.value;
    }
    while i < |base64|
      invariant pending == Slices(Rest(base64, i), chunkSize)
      invariant Prepend(chunks, DecodeSlices(pending)) == whole
      decreases |base64| - i
    {
      var next: nat := i + chunkSize;
      var chunk := base64[i .. Min(next, |base64|)];
      SlicesStep(base64, chunkSize, i, next);
      ghost var after := Slices(Rest(base64, next), chunkSize);
      assert pending == [chunk] + after;
      var binary := Atob(chunk);
      if binary.None? {
        DecodeSlicesStep(chunks, chunk, after);
        return None;
      }
      var bytes := CopyCharCodes(binary.value);
      assert DecodeSlice(chunk) == Some(bytes);
      DecodeSlicesStep(chunks, chunk, after);
      chunks := chunks + [bytes];
      pending := after;
      i := next;
    }
    assert pending == [];
    assert chunks + [] == chunks;
    var result := CopyAtOffsets(chunks);
    r := Some(result);
  }
}
