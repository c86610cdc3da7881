// Framing and unframing as they work on their buffers.
module FrameBuffer {
  import opened Bytes
  import opened Frame

  // memcpy
  method Copy(dst: array<byte>, at: nat, src: bytes)
    requires at + |src| <= dst.Length
    modifies dst
    ensures dst[..] == old(dst[..at]) + src + old(dst[at + |src|..])
  {
    var i: nat := 0;
    while i < |src|
      invariant i <= |src|
      invariant dst[..at] == old(dst[..at]) && dst[at..at + i] == src[..i]
      invariant dst[at + |src|..] == old(dst[at + |src|..])
    {
      dst[at + i] := src[i];
      i := i + 1;
    }
    assert dst[..] == dst[..at] + dst[at..at + |src|] + dst[at + |src|..];
  }

  // The loop at the head of aes_cbc_128_enc_padding.
  method PadInPlace(buf: array<byte>, n: nat)
    requires buf.Length == PaddedLength(n)
    modifies buf
    ensures buf[..] == Pad(old(buf[..n]))
  {
    var p: byte := buf.Length - n;
    var i := n;
    while i < buf.Length
      invariant n <= i <= buf.Length && buf[..n] == old(buf[..n])
      invariant forall k | n <= k < i :: buf[k] == p
    {
      buf[i] := p;
      i := i + 1;
    }
    assert buf[..] == buf[..n] + buf[n..];
    assert buf[n..] == Fill(p, p);
  }

  // The framing part of das_send_pubmsg.
  method Send(version: bytes, sequence: Int, kind: Int, body: bytes, enc: bytes -> bytes) returns (payload: bytes)
    requires NulFree(version) && Fits(Common(version, sequence, kind), body)
    ensures payload == enc(Pad(Payload(Common(version, sequence, kind), body)))
    ensures exists d :: payload == enc(d) && Framed(d, version, sequence, kind, body)
  {
    hide Common, Pad, Framed;
    Frames(version, sequence, kind, body);
    var common := Common(version, sequence, kind);
    var total := |common| + 2 + |body|;
    RoomIff(total);
    var buf := new byte[PaddedLength(total) % 0x10000](_ => 0);
    Copy(buf, 0, Short(|common|));
    ghost var a := buf[..];
    Copy(buf, 2, common);
    ghost var b := buf[..];
    assert b[..2] == Short(|common|);
    Copy(buf, 2 + |common|, body);
    assert buf[..][..2 + |common|] == b[..2 + |common|] == Short(|common|) + common;
    assert buf[..total] == Payload(common, body);
    PadInPlace(buf, total);
    payload := enc(buf[..]);
  }

  // The check at the end of aes_cbc_128_dec_padding: how much of the buffer is plain text.
  method PlainLength(buf: array<byte>) returns (r: int)
    ensures r < 0 <==> !Unpad(buf[..]).Plain?
    ensures r >= 0 ==> r <= buf.Length && Unpad(buf[..]) == Plain(buf[..r])
  {
    if buf.Length == 0 || buf.Length % BLOCK != 0 { return -1; }
    var p := buf[buf.Length - 1];
    if p > BLOCK || p == 0 { return -1; }
    var i: nat := 1;
    while i <= p && buf[buf.Length - i] == p
      invariant 1 <= i <= p + 1
      invariant forall k | buf.Length - i < k < buf.Length :: buf[k] == p
      decreases p + 1 - i
    {
      i := i + 1;
    }
    if i <= p {
      assert buf[..][buf.Length - i] != p;
      return -1;
    }
    assert EndsWith(buf[..], p, p);
    r := buf.Length - p as int;
    assert buf[..][..r] == buf[..r];
  }

  // memmove of the last n bytes of the first end ones to the front
  method MoveToFront(buf: array<byte>, end: nat, n: nat)
    requires n <= end <= buf.Length
    modifies buf
    ensures buf[..n] == old(buf[end - n..end])
  {
    var i: nat := 0;
    while i < n
      invariant i <= n
      invariant buf[..i] == old(buf[end - n..end - n + i])
      invariant forall k | end - n + i <= k < end :: buf[k] == old(buf[k])
    {
      buf[i] := buf[end - n + i];
      i := i + 1;
    }
  }

  // The unframing part of das_message_receive; inside says whether it stayed within its buffer.
  method Receive(payload: bytes, dec: bytes -> bytes, beyond: bytes) returns (r: Received, inside: bool)
    requires |dec(payload)| < LENGTHS
    ensures r == Unframe(dec(payload), beyond)
    ensures inside <==> StaysInside(dec(payload), beyond)
  {
    inside := true;
    hide Unpad, CString, ReadHeader, BodySize, FromShort;
    var d := dec(payload);
    var buf := new byte[|d|](i requires 0 <= i < |d| => d[i]);
    assert buf[..] == d;
    var plain := PlainLength(buf);
    if plain < 0 { return BadPadding, inside; }
    UnpadIff(d, d[..plain]);
    hide Pad;
    var n := FromShort(buf[0], buf[1]);
    if n >= plain { return BadLength, inside; }
    var text := CString(buf[2..] + beyond);
    inside := |text| < buf.Length - 2;
    var h := ReadHeader(text);
    if h.NoHead? { return BadHeader, inside; }
    var size := BodySize(plain, n);
    BodySizeIs(plain, n);
    if 2 + n + size > buf.Length { return Overrun(size), false; }
    assert d[..plain][2 + n..] == buf[2 + n..plain];
    MoveToFront(buf, plain, size);
    r := Message(h.version, h.sequence, buf[..size]);
  }
}
