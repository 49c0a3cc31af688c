/** The frame header as it is built and read in memory, byte by byte. */
module FrameHeader {
  import opened Bytes
  import opened Frames

  /** A number in network byte order, as a processor stores it. */
  method StoreBE(a: array<byte>, at: nat, n: nat, k: nat)
    requires at + k <= a.Length
    modifies a
    ensures a[at..at + k] == ToBE(n, k)
    ensures a[..at] == old(a[..at]) && a[at + k..] == old(a[at + k..])
  {
    var i: nat, m: nat := k, n;
    while i > 0
      invariant i <= k
      invariant ToBE(n, k) == ToBE(m, i) + a[at + i..at + k]
      invariant a[..at] == old(a[..at]) && a[at + k..] == old(a[at + k..])
    {
      ghost var stored := a[at + i..at + k];
      i := i - 1;
      a[at + i] := (m % 256) as byte;
      assert a[at + i..at + k] == [(m % 256) as byte] + stored;
      m := m / 256;
    }
  }

  method LoadBE(a: array<byte>, at: nat, k: nat) returns (n: nat)
    requires at + k <= a.Length
    ensures n == FromBE(a[at..at + k])
  {
    n := 0;
    var i := 0;
    while i < k
      invariant i <= k && n == FromBE(a[at..at + i])
    {
      assert a[at..at + i + 1][..i] == a[at..at + i];
      n := n * 256 + a[at + i] as nat;
      i := i + 1;
    }
  }

  /** The header of an outgoing frame: its bytes and how many there are. */
  method BuildHeader(opcode: Opcode, length: nat) returns (header: array<byte>, size: nat)
    ensures fresh(header) && header.Length == 16
    ensures size <= 16 && header[..size] == ServerHeader(opcode, length)
  {
    header := new byte[16];
    header[0] := (128 + opcode) as byte;
    size := 2;
    if length <= 125 {
      header[1] := length as byte;
    } else if length <= 0xFFFF {
      header[1] := 126;
      ghost var first := header[..2];
      StoreBE(header, 2, length, 2);
      size := 4;
      assert header[..4] == first + header[2..4];
    } else {
      header[1] := 127;
      ghost var first := header[..2];
      StoreBE(header, 2, length, 8);
      size := 10;
      assert header[..10] == first + header[2..10];
    }
  }

  /** The header of an incoming frame, of which `offset` bytes are there. */
  method ReadHeader(a: array<byte>, offset: nat) returns (h: Header)
    requires offset <= a.Length
    ensures h == ParseHeader(a[..offset])
  {
    ghost var s := a[..offset];
    if offset < 2 {
      return NeedsMore;
    }
    var opcode := a[0] as nat % 16;
    var masked := a[1] >= 128;
    var length := a[1] as nat % 128;
    var size := 2;
    if masked {
      if offset < 6 {
        return NeedsMore;
      }
      size := 6;
    }
    if length == 126 {
      if offset < 4 {
        return NeedsMore;
      }
      length := LoadBE(a, 2, 2);
      size := 4;
      assert s[2..4] == a[2..4];
      if masked {
        if offset < 8 {
          return NeedsMore;
        }
        size := 8;
      }
    } else if length == 127 {
      if offset < 10 {
        return NeedsMore;
      }
      length := LoadBE(a, 2, 8);
      size := 10;
      assert s[2..10] == a[2..10];
      if masked {
        if offset < 14 {
          return NeedsMore;
        }
        size := 14;
      }
    }
    return Header(opcode, masked, size, length);
  }

  /** Unmasking in place; the key lies in front of the payload. */
  method Unmask(a: array<byte>, at: nat, length: nat)
    requires 4 <= at && at + length <= a.Length
    modifies a
    ensures a[at..at + length] == Mask(old(a[at - 4..at]), old(a[at..at + length]))
    ensures Masked(old(a[at - 4..at]), old(a[at..at + length]), a[at..at + length])
    ensures a[..at] == old(a[..at]) && a[at + length..] == old(a[at + length..])
  {
    ghost var key, text := a[at - 4..at], a[at..at + length];
    ghost var clear := Mask(key, text);
    var u := 0;
    while u < length
      invariant u <= length
      invariant forall i :: 0 <= i < a.Length && !(at <= i < at + u) ==> a[i] == old(a[i])
      invariant forall i :: 0 <= i < u ==> a[at + i] == clear[i]
    {
      assert a[at + u] == text[u] && a[at - 4 + u % 4] == key[u % 4];
      a[at + u] := Xor(a[at + u], a[at - 4 + u % 4]);
      u := u + 1;
    }
    assert a[at..at + length] == clear;
    assert a[..at] == old(a[..at]) && a[at + length..] == old(a[at + length..]);
    MaskExactly(key, text, clear);
  }
}
