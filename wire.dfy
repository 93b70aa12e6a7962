/**
 * Wire-level vocabulary shared by the RTCP header codec and the compound
 * builder: octets and the unsigned widths of the Rust code, big-endian
 * conversions (`to_be_bytes` / `from_be_bytes`), and the slice copy
 * (`copy_from_slice`) every writer is built from.
 */
module Wire {

  /** An optional value, the model of Rust's `Option`. */
  datatype Option<+T> = None | Some(value: T)

  /** An octet, `u8`. */
  type Byte = b: int | 0 <= b < 0x100

  /** `u16`, the width of the wire length field. */
  type U16 = x: int | 0 <= x < 0x1_0000

  /** `u32`, the width of an SSRC. */
  type U32 = x: int | 0 <= x < 0x1_0000_0000

  /** `u16::to_be_bytes`. */
  function U16ToBe(x: U16): (r: seq<Byte>)
    ensures |r| == 2
  {
    [x / 0x100, x % 0x100]
  }

  /** `u16::from_be_bytes`. */
  function BeToU16(hi: Byte, lo: Byte): U16
  {
    hi as int * 0x100 + lo as int
  }

  /** `u32::to_be_bytes`. */
  function U32ToBe(x: U32): (r: seq<Byte>)
    ensures |r| == 4
  {
    [x / 0x100_0000, (x / 0x1_0000) % 0x100, (x / 0x100) % 0x100, x % 0x100]
  }

  /** `u32::from_be_bytes`. */
  function BeToU32(b: seq<Byte>): U32
    requires |b| == 4
  {
    b[0] as int * 0x100_0000 + b[1] as int * 0x1_0000 + b[2] as int * 0x100 + b[3] as int
  }

  /** Decoding the two bytes `U16ToBe` writes gives back the value. */
  lemma U16RoundTrip(x: U16)
    ensures BeToU16(U16ToBe(x)[0], U16ToBe(x)[1]) == x
  {
  }

  /** Decoding the four bytes `U32ToBe` writes gives back the value. */
  lemma U32RoundTrip(x: U32)
    ensures BeToU32(U32ToBe(x)) == x
  {
    var b := U32ToBe(x);
    assert x == (x / 0x100) * 0x100 + x % 0x100;
    assert x / 0x100 == (x / 0x1_0000) * 0x100 + (x / 0x100) % 0x100;
    assert x / 0x1_0000 == (x / 0x100_0000) * 0x100 + (x / 0x1_0000) % 0x100;
  }

  /** Encoding a decoded SSRC gives back the four bytes it was read from. */
  lemma BeToU32RoundTrip(b: seq<Byte>)
    requires |b| == 4
    ensures U32ToBe(BeToU32(b)) == b
  {
    var x := BeToU32(b);
    assert x / 0x100_0000 == b[0];
    assert x / 0x1_0000 == b[0] as int * 0x100 + b[1] as int;
    assert x / 0x100 == b[0] as int * 0x1_0000 + b[1] as int * 0x100 + b[2] as int;
  }

  /**
   * The content of a buffer `s` after `b` has been copied into it at
   * offset `off`: what `(&mut s[off..off + b.len()]).copy_from_slice(b)`
   * leaves behind.
   */
  function Overwrite(s: seq<Byte>, off: nat, b: seq<Byte>): (r: seq<Byte>)
    requires off + |b| <= |s|
    ensures |r| == |s|
  {
    s[..off] + b + s[off + |b|..]
  }

  /** After the copy, the bytes in the range come from `b` and the others are as they were. */
  lemma OverwriteContents(s: seq<Byte>, off: nat, b: seq<Byte>)
    requires off + |b| <= |s|
    ensures forall i :: 0 <= i < |s| ==> Overwrite(s, off, b)[i] == if off <= i < off + |b| then b[i - off] else s[i]
  {
  }

  /** Writing right after a prefix that is already in place extends the prefix. */
  lemma OverwriteAfterPrefix(p: seq<Byte>, s: seq<Byte>, b: seq<Byte>)
    requires |b| <= |s|
    ensures Overwrite(p + s, |p|, b) == (p + b) + s[|b|..]
  {
    var l, r := Overwrite(p + s, |p|, b), (p + b) + s[|b|..];
    OverwriteContents(p + s, |p|, b);
    assert |l| == |r|;
    forall i | 0 <= i < |l| ensures l[i] == r[i] {
      if i < |p| {
      } else if i < |p| + |b| {
      } else {
        assert r[i] == s[|b|..][i - |p| - |b|];
      }
    }
  }

  /** Two copies into adjacent ranges are one copy of the two slices joined. */
  lemma OverwriteAdjacent(s: seq<Byte>, off: nat, a: seq<Byte>, b: seq<Byte>)
    requires off + |a| + |b| <= |s|
    ensures Overwrite(Overwrite(s, off, a), off + |a|, b) == Overwrite(s, off, a + b)
  {
    var l, r := Overwrite(Overwrite(s, off, a), off + |a|, b), Overwrite(s, off, a + b);
    OverwriteContents(s, off, a);
    OverwriteContents(Overwrite(s, off, a), off + |a|, b);
    OverwriteContents(s, off, a + b);
    assert forall i :: 0 <= i < |s| ==> l[i] == r[i];
  }

  /** Writing one byte is an update at its index. */
  lemma OverwriteOne(s: seq<Byte>, off: nat, v: Byte, after: seq<Byte>)
    requires off < |s| && after == s[off := v]
    ensures after == Overwrite(s, off, [v])
  {
    assert forall i :: 0 <= i < |s| ==> after[i] == Overwrite(s, off, [v])[i];
  }

  /** `OverwriteAdjacent` with the intermediate buffer and the second offset named. */
  lemma OverwriteThen(s: seq<Byte>, off: nat, a: seq<Byte>, b: seq<Byte>, at: nat, mid: seq<Byte>, after: seq<Byte>)
    requires off + |a| + |b| <= |s| && at == off + |a|
    requires mid == Overwrite(s, off, a) && after == Overwrite(mid, at, b)
    ensures after == Overwrite(s, off, a + b)
  {
    OverwriteAdjacent(s, off, a, b);
  }

  /** A copy to the front of a buffer leaves the bytes after it as they were. */
  lemma OverwriteFront(s: seq<Byte>, b: seq<Byte>)
    requires |b| <= |s|
    ensures Overwrite(s, 0, b)[..|b|] == b
    ensures Overwrite(s, 0, b)[|b|..] == s[|b|..]
  {
    assert Overwrite(s, 0, b) == b + s[|b|..];
  }

  /** `copy_from_slice` into `buf[off..off + bytes.len()]`. */
  method WriteBytes(buf: array<Byte>, off: nat, bytes: seq<Byte>)
    requires off + |bytes| <= buf.Length
    modifies buf
    ensures buf[..] == Overwrite(old(buf[..]), off, bytes)
  {
    for i := 0 to |bytes|
      invariant forall j :: 0 <= j < i ==> buf[off + j] == bytes[j]
      invariant forall j :: 0 <= j < buf.Length && !(off <= j < off + i) ==> buf[j] == old(buf[j])
    {
      buf[off + i] := bytes[i];
    }
    ghost var want := Overwrite(old(buf[..]), off, bytes);
    OverwriteContents(old(buf[..]), off, bytes);
    assert forall j :: 0 <= j < buf.Length ==> buf[..][j] == want[j];
  }
}
