/** The compressor and the decoder together. */
module RoundTrip {
  import opened Bits
  import opened CanonicalCode
  import Inflate
  import Parsing
  import Deflate
  import TinflHelpers
  import TinflZlib
  import Zlib
  import Checksums

  /** Unless a callback or an allocation refuses: what tdefl_compress_mem_to_output makes of any bytes, with any parsing and
      block options but the zlib wrapper, tinfl_decompress_mem_to_heap turns back into them (src/http/miniz.c:2726-2734, 1701-1727). */
  method CompressThenDecompress(data: seq<Byte>, options: Parsing.Options, probes: nat) returns (status: Deflate.Status, outcome: TinflHelpers.Outcome, back: seq<Byte>, ghost refused: bool)
    requires !options.zlib
    ensures status == Deflate.Done || status == Deflate.PutBufFailed
    ensures status == Deflate.Done && outcome == TinflHelpers.Success ==> back == data
    ensures !refused ==> status == Deflate.Done && outcome == TinflHelpers.Success
  {
    hide Inflate.InflateAll;
    var packed;
    back, outcome := [], TinflHelpers.NoMemory;
    status, packed, refused := Deflate.CompressMemToOutput(data, options, probes);
    if status == Deflate.Done {
      PlainMeaning(packed, data);
      var buf, len;
      ghost var denied;
      outcome, buf, len, denied := TinflHelpers.DecompressMemToHeap(packed);
      refused := refused || denied;
      if outcome == TinflHelpers.Success { back := buf[..len]; }
    }
  }

  /** The same with the zlib wrapper, written and read by the program itself: the checksum that was written is the
      one that is checked. */
  method CompressThenDecompressZlib(data: seq<Byte>, options: Parsing.Options, probes: nat) returns (status: Deflate.Status, ok: bool, back: seq<Byte>, ghost refused: bool)
    requires options.zlib && |data| < 0xFFFF_FFFF
    ensures status == Deflate.Done || (status == Deflate.PutBufFailed && refused)
    ensures status == Deflate.Done ==> ok && back == data
  {
    hide Zlib.InflateZlib;
    var packed;
    back, ok := [], false;
    status, packed, refused := Deflate.CompressMemToOutput(data, options, probes);
    if status == Deflate.Done {
      WrappedMeaning(packed, data);
      var out := new Byte[|data|](i => 0);
      var len;
      ok, len := TinflZlib.DecompressZlibMemToMem(out, packed);
      back := out[..len];
    }
  }

  lemma WrappedMeaning(packed: seq<Byte>, data: seq<Byte>)
    requires Deflate.Decodes(packed, true, data)
    ensures TinflZlib.Wrapped(packed) && Zlib.HeaderOk(packed[0], packed[1]) && TinflZlib.Content(packed) == data
    ensures TinflZlib.TrailerSum(packed) == Checksums.Adler32(1, data)
  {
    hide Inflate.InflateFrom, BytesToBits, Inflate.BytesAt, Checksums.Adler32, Zlib.FromBigEndian, Inflate.AlignUp, Zlib.HeaderOk;
  }

  lemma PlainMeaning(packed: seq<Byte>, data: seq<Byte>)
    requires Deflate.Decodes(packed, false, data)
    ensures Inflate.InflateAll(packed).Some? && TinflHelpers.Meaning(packed) == data
  {
    hide Inflate.InflateAll;
  }
}
