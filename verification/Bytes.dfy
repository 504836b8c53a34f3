/** Numbers as little-endian bytes, and records as sequences of numbers of given widths. */
module Bytes {
  type Byte = nat

  function LittleEndian(v: nat, n: nat): (r: seq<Byte>)
    ensures |r| == n
  {
    if n == 0 then [] else [v % 256] + LittleEndian(v / 256, n - 1)
  }

  lemma LittleEndianLength(v: nat, n: nat)
    ensures |LittleEndian(v, n)| == n
  {
  }

  function FromLittleEndian(s: seq<Byte>): nat {
    if s == [] then 0 else s[0] + 256 * FromLittleEndian(s[1..])
  }

  function Pow256(n: nat): nat {
    if n == 0 then 1 else 256 * Pow256(n - 1)
  }

  lemma {:induction false} LittleEndianReadsBack(v: nat, n: nat)
    requires v < Pow256(n)
    ensures FromLittleEndian(LittleEndian(v, n)) == v
  {
    if n > 0 {
      LittleEndianReadsBack(v / 256, n - 1);
      assert LittleEndian(v, n)[1..] == LittleEndian(v / 256, n - 1);
    }
  }

  /** A buffer with the bytes from `start` on replaced. */
  function Overwrite(content: seq<Byte>, start: nat, data: seq<Byte>): (r: seq<Byte>)
    requires start + |data| <= |content|
    ensures |r| == |content|
    ensures forall k | 0 <= k < |content| :: r[k] == if start <= k < start + |data| then data[k - start] else content[k]
  {
    content[..start] + data + content[start + |data|..]
  }

  function Sum(widths: seq<nat>): nat {
    if widths == [] then 0 else widths[0] + Sum(widths[1..])
  }

  /** A record without padding. */
  function Encode(values: seq<nat>, widths: seq<nat>): (r: seq<Byte>)
    requires |values| == |widths|
    ensures |r| == Sum(widths)
  {
    if values == [] then [] else LittleEndian(values[0], widths[0]) + Encode(values[1..], widths[1..])
  }

  function Decode(bytes: seq<Byte>, widths: seq<nat>): (r: seq<nat>)
    requires |bytes| == Sum(widths)
    ensures |r| == |widths|
    decreases |widths|
  {
    if widths == [] then []
    else [FromLittleEndian(bytes[..widths[0]])] + Decode(bytes[widths[0]..], widths[1..])
  }

  ghost predicate Fit(values: seq<nat>, widths: seq<nat>) {
    |values| == |widths| && forall i | 0 <= i < |values| :: values[i] < Pow256(widths[i])
  }

  lemma {:induction false} DecodeEncode(values: seq<nat>, widths: seq<nat>)
    requires Fit(values, widths)
    ensures Decode(Encode(values, widths), widths) == values
    decreases |values|
  {
    hide LittleEndian, FromLittleEndian, Pow256;
    if values != [] {
      LittleEndianLength(values[0], widths[0]);
      LittleEndianReadsBack(values[0], widths[0]);
      var bytes := Encode(values, widths);
      assert bytes[..widths[0]] == LittleEndian(values[0], widths[0]);
      assert bytes[widths[0]..] == Encode(values[1..], widths[1..]);
      DecodeEncode(values[1..], widths[1..]);
    }
  }
}
