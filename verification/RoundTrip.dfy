/**
 Compressing and inflating (qqwry/miniz.c, tdefl_compress_mem_to_mem and tinfl_decompress_mem_to_mem, without the wrapper
 of RFC 1950): for all data and all settings of the compressor, the inflater gives the data back.
 */
module RoundTrip {
  import opened Common
  import opened InflateBlock
  import opened StreamSpec
  import BitWriter
  import C = Compressor
  import D = DeflateStream
  import Inflater
  import InflateLoop
  import InflateStream

  /** How hard the compressor looks for matches, and which shortcuts it takes. */
  datatype Settings = Settings(probes: nat, longProbes: nat, greedy: bool, rle: bool, filter: bool, fast: bool,
                               forceStatic: bool, forceRaw: bool)

  method Deflate(data: seq<Byte>, s: Settings) returns (bytes: seq<Byte>)
    ensures D.Complete(BitWriter.BitsOf(bytes), data)
  {
    hide D.Complete, BitWriter.BitsOf, C.Compressor.Valid;
    var c := new C.Compressor((s.probes + 1, s.longProbes + 1), s.greedy, s.rle, s.filter, s.fast, s.forceStatic, s.forceRaw);
    c.CompressAll(data);
    assert c.input == data;
    bytes := c.d.sent;
  }

  method Inflate(bytes: seq<Byte>, room: nat) returns (ok: bool, data: seq<nat>)
    ensures var whole := ReadStream([], BitWriter.BitsOf(bytes));
            && (InflateStream.Fits(whole, room) ==> ok && data == whole.value)
            && (ok && whole.Got? ==> data == whole.value)
  {
    hide ReadStream, BitWriter.BitsOf;
    var r := new Inflater.Reader(bytes, false);
    var out := new nat[room];
    var status, end := InflateStream.Inflate(r, out);
    ok, data := status == InflateLoop.Done, out[..end];
  }

  lemma CompleteReads(bytes: seq<nat>, data: seq<nat>)
    requires D.Complete(BitWriter.BitsOf(bytes), data)
    ensures ReadStream([], BitWriter.BitsOf(bytes)).Got? && ReadStream([], BitWriter.BitsOf(bytes)).value == data
  {
    hide ReadStream, BitWriter.BitsOf, Surplus;
    var stream := BitWriter.BitsOf(bytes);
    var pad: seq<bool> :| |pad| < 8 && D.ReadsUpTo(stream, data, pad);
    D.WholeBytes(bytes);
    var none: seq<bool> := [];
    assert |stream| + |none| == |stream| && stream + none == stream;
  }

  /** For all data and settings, inflating what was deflated gives the data, in any output that has room for them. */
  method RoundTrip(data: seq<Byte>, s: Settings, room: nat) returns (ok: bool, restored: seq<nat>)
    requires |data| <= room
    ensures ok && restored == data
  {
    hide D.Complete, ReadStream, BitWriter.BitsOf;
    var bytes := Deflate(data, s);
    CompleteReads(bytes, data);
    ok, restored := Inflate(bytes, room);
  }
}
