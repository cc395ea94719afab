/** Bytes in memory: a region is a sequence of bytes, or an array for code that writes it
    in place. */
module RawBytes {
  type Byte = b: int | 0 <= b < 256

  /** `s` with the bytes from `at` on replaced by `data`. */
  function Splice(s: seq<Byte>, at: nat, data: seq<Byte>): (r: seq<Byte>)
    requires at + |data| <= |s|
    ensures |r| == |s|
    ensures forall k :: 0 <= k < |s| ==> r[k] == if at <= k < at + |data| then data[k - at] else s[k]
  {
    s[..at] + data + s[at + |data|..]
  }

  function Repeat(value: Byte, n: nat): (r: seq<Byte>)
    ensures |r| == n && forall k :: 0 <= k < n ==> r[k] == value
  {
    seq(n, _ => value)
  }

  /** `core::ptr::copy_nonoverlapping`. */
  method CopyNonoverlapping(bytes: array<Byte>, src: nat, dst: nat, n: nat)
    requires src + n <= dst || dst + n <= src
    requires src + n <= bytes.Length && dst + n <= bytes.Length
    modifies bytes
    ensures bytes[..] == Splice(old(bytes[..]), dst, old(bytes[src..src + n]))
  {
    for k := 0 to n
      invariant forall j :: 0 <= j < bytes.Length ==>
                  bytes[j] == if dst <= j < dst + k then old(bytes[src + (j - dst)]) else old(bytes[j])
    {
      bytes[dst + k] := bytes[src + k];
    }
  }

  /** `copy_nonoverlapping` from another allocation. */
  method CopyFrom(bytes: array<Byte>, dst: nat, data: seq<Byte>)
    requires dst + |data| <= bytes.Length
    modifies bytes
    ensures bytes[..] == Splice(old(bytes[..]), dst, data)
  {
    for k := 0 to |data|
      invariant forall j :: 0 <= j < bytes.Length ==>
                  bytes[j] == if dst <= j < dst + k then data[j - dst] else old(bytes[j])
    {
      bytes[dst + k] := data[k];
    }
  }

  /** `core::ptr::write_bytes`. */
  method WriteBytes(bytes: array<Byte>, at: nat, value: Byte, n: nat)
    requires at + n <= bytes.Length
    modifies bytes
    ensures bytes[..] == Splice(old(bytes[..]), at, Repeat(value, n))
  {
    for k := 0 to n
      invariant forall j :: 0 <= j < bytes.Length ==>
                  bytes[j] == if at <= j < at + k then value else old(bytes[j])
    {
      bytes[at + k] := value;
    }
  }
}
