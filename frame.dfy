// Frame codec of driver-bm1397.c: `compac_send2` framing of an outgoing
// command and the CRC check of a received reply in `compac_listen2`.

module Frame {
  import opened Utils
  import opened Crc5

  /** Bitwise OR of the k low bits of a and b. */
  function BitOr(a: nat, b: nat, k: nat): (r: nat)
    ensures r < Pow2(k)
  {
    if k == 0 then 0
    else 2 * BitOr(a / 2, b / 2, k - 1) + (if a % 2 == 1 || b % 2 == 1 then 1 else 0)
  }

  function Pow2(k: nat): (r: nat)
    ensures r >= 1
  {
    if k == 0 then 1 else 2 * Pow2(k - 1)
  }

  /** OR with zero leaves a value of k bits as it is. */
  lemma {:induction false} BitOrZero(c: nat, k: nat)
    requires c < Pow2(k)
    ensures BitOr(0, c, k) == c
  {
    if k > 0 {
      BitOrZero(c / 2, k - 1);
    }
  }

  /** `b |= c` for a CRC value c: the three top bits of b stay, the five low
      bits are OR-ed with c. */
  function OrCrc(b: byte, c: nat): (r: byte)
    requires c < 32
  {
    (b as int / 32 * 32 + BitOr(b as int % 32, c, 5)) as byte
  }

  /** OR-ing into a byte whose five low bits are clear adds the CRC. */
  lemma OrCrcLowClear(b: byte, c: nat)
    requires c < 32 && b as int % 32 == 0
    ensures OrCrc(b, c) as int == b as int + c
    ensures OrCrc(b, c) as int % 32 == c
  {
    assert Pow2(5) == 32;
    BitOrZero(c, 5);
    var q := b as int / 32;
    Div32(b as int, q, 0);
    Div32(b as int + c, q, c);
  }

  lemma Div32(v: int, q: int, r: int)
    requires 0 <= r < 32 && v == q * 32 + r
    ensures v / 32 == q && v % 32 == r
  {
  }

  /** The bytes `compac_send2` emits for a BM1397: 0x55 0xAA, then the
      payload, with the CRC OR-ed into the last emitted byte. */
  function Framed(payload: seq<byte>, crc: nat): (f: seq<byte>)
    requires crc < 32
    ensures |f| == |payload| + 2
    ensures |payload| > 0 ==> f[..2] == [0x55, 0xAA] && f[2..|f| - 1] == payload[..|payload| - 1]
  {
    var f := [0x55, 0xAA] + payload;
    f[|f| - 1 := OrCrc(f[|f| - 1], crc)]
  }

  /** The emitted frame is the preamble and the payload, only its last byte
      changed, and that byte is the payload's last byte OR the CRC. */
  lemma FramedShape(payload: seq<byte>, crc: nat)
    requires crc < 32 && |payload| > 0
    ensures var f := Framed(payload, crc);
      && |f| == |payload| + 2
      && f[..2] == [0x55, 0xAA]
      && f[2..|f| - 1] == payload[..|payload| - 1]
      && f[|f| - 1] == OrCrc(payload[|payload| - 1], crc)
  {
  }

  /** `compac_send2(bm1397, req_tx, bytes, crc_bits)`: copy into the command
      buffer behind the preamble, OR in `bmcrc(req_tx, crc_bits)` computed
      over the original request, and return what is written to USB. */
  method Send2(cmd: array<byte>, req: array<byte>, bytes: nat, crcBits: nat) returns (sent: seq<byte>)
    requires bytes <= req.Length && crcBits <= 8 * req.Length
    requires bytes + 2 <= cmd.Length
    requires cmd != req
    modifies cmd
    ensures |sent| == bytes + 2
    ensures sent == cmd[..bytes + 2] == Framed(req[..bytes], Crc(req[..], crcBits))
    ensures cmd[bytes + 2..] == old(cmd[bytes + 2..])
  {
    CopyBehindPreamble(cmd, req, bytes);
    var total := bytes + 2;
    var crc := BmCrc(req[..], crcBits);
    ghost var f := cmd[..total];
    ghost var tail := cmd[total..];
    cmd[total - 1] := OrCrc(cmd[total - 1], crc);
    assert cmd[..total] == f[total - 1 := OrCrc(f[total - 1], crc)];
    assert cmd[total..] == tail;
    sent := cmd[..total];
  }

  /** The preamble and the `bytes` bytes of the request, copied into the
      command buffer. */
  method CopyBehindPreamble(cmd: array<byte>, req: array<byte>, bytes: nat)
    requires bytes <= req.Length && bytes + 2 <= cmd.Length && cmd != req
    modifies cmd
    ensures cmd[..bytes + 2] == [0x55, 0xAA] + req[..bytes]
    ensures cmd[bytes + 2..] == old(cmd[bytes + 2..])
  {
    cmd[0] := 0x55;
    cmd[1] := 0xAA;
    var off := 2;
    var i := 0;
    while i < bytes
      invariant 0 <= i <= bytes
      invariant cmd[0] == 0x55 && cmd[1] == 0xAA
      invariant forall k :: 0 <= k < i ==> cmd[k + 2] == req[k]
      invariant forall k :: bytes + 2 <= k < cmd.Length ==> cmd[k] == old(cmd[k])
    {
      cmd[i + off] := req[i];
      i := i + 1;
    }
    assert cmd[bytes + 2..] == old(cmd[bytes + 2..]);
  }

  /** A command whose last payload byte has its five low bits clear (every
      command of the driver ends in 0x00) carries the CRC of its leading bits
      in the low bits of the last byte: a receiver that recomputes the CRC
      over the same bits of the frame after the preamble finds it there. */
  lemma CommandCrcRecoverable(payload: seq<byte>, n: nat)
    requires |payload| > 0 && n <= 8 * (|payload| - 1)
    requires payload[|payload| - 1] as int % 32 == 0
    ensures var f := Framed(payload, Crc(payload, n));
      f[|f| - 1] as int % 32 == Crc(f[2..], n)
  {
    var c := Crc(payload, n);
    var f := Framed(payload, c);
    var body := f[2..];
    assert body[..|body| - 1] == payload[..|payload| - 1];
    forall i | 0 <= i < n ensures BitAt(body, i) == BitAt(payload, i) {
      assert body[i / 8] == payload[i / 8];
    }
    CrcPrefix(body, payload, n);
    OrCrcLowClear(payload[|payload| - 1], c);
  }

  /** The receive-side test in `compac_listen2` on a frame of len bytes:
      the last byte is at most 0x1f and equals `bmcrc(buf + 2, 8*(len-2) - 5)`. */
  function RxCrcOk(frame: seq<byte>): (ok: bool)
    requires |frame| >= 3
    ensures ok ==> frame[|frame| - 1] as int < 32
  {
    frame[|frame| - 1] <= 0x1f
    && Crc(frame[2..], 8 * (|frame| - 2) - 5) == frame[|frame| - 1] as int
  }

  /** A reply as the chip builds it: 0xAA 0x55, the body, and a status byte
      that holds the CRC of the body followed by three zero bits. */
  function Response(body: seq<byte>): (f: seq<byte>)
    ensures |f| == |body| + 3
  {
    [0xAA, 0x55] + body + [Crc(body + [0], 8 * |body| + 3) as byte]
  }

  /** The covered bits of a frame whose status byte is at most 0x1f are the
      body's bits followed by three zero bits. */
  lemma CoveredBits(frame: seq<byte>)
    requires |frame| >= 3 && frame[|frame| - 1] <= 0x1f
    ensures var body := frame[2..|frame| - 1];
      Crc(frame[2..], 8 * (|frame| - 2) - 5) == Crc(body + [0], 8 * |body| + 3)
  {
    var body := frame[2..|frame| - 1];
    var n := 8 * |body| + 3;
    var a := frame[2..];
    var b := body + [0];
    assert a == body + [frame[|frame| - 1]];
    forall i | 0 <= i < n ensures BitAt(a, i) == BitAt(b, i) {
      if i < 8 * |body| {
        BitAtAppend(body, [frame[|frame| - 1]], i);
        BitAtAppend(body, [0], i);
      } else {
        assert i / 8 == |body|;
        TopBitsClear(frame[|frame| - 1], i % 8);
      }
    }
    CrcPrefix(a, b, n);
  }

  /** A frame that starts with 0xAA 0x55 passes the receive check exactly
      when it is the reply the chip builds for its body. */
  lemma RxCrcOkIffResponse(frame: seq<byte>)
    requires |frame| >= 3 && frame[..2] == [0xAA, 0x55]
    ensures RxCrcOk(frame) <==> frame == Response(frame[2..|frame| - 1])
  {
    var body := frame[2..|frame| - 1];
    var last := frame[|frame| - 1];
    assert frame == [0xAA, 0x55] + body + [last];
    if RxCrcOk(frame) {
      CoveredBits(frame);
    }
    if frame == Response(body) {
      assert last as int == Crc(body + [0], 8 * |body| + 3);
      CoveredBits(frame);
    }
  }

  /** Every reply the chip builds passes the receive check. */
  lemma ResponseAccepted(body: seq<byte>)
    ensures RxCrcOk(Response(body))
  {
    var f := Response(body);
    assert f[..2] == [0xAA, 0x55];
    assert f[2..|f| - 1] == body;
    RxCrcOkIffResponse(f);
  }

  /** A reply with one bit of its covered range flipped fails the check. */
  lemma RxSingleBitError(f1: seq<byte>, f2: seq<byte>, j: nat)
    requires |f1| == |f2| >= 3 && f1[|f1| - 1] == f2[|f2| - 1]
    requires j < 8 * (|f1| - 2) - 5
    requires BitAt(f1[2..], j) != BitAt(f2[2..], j)
    requires forall i :: 0 <= i < 8 * (|f1| - 2) - 5 && i != j ==> BitAt(f1[2..], i) == BitAt(f2[2..], i)
    ensures RxCrcOk(f1) ==> !RxCrcOk(f2)
  {
    SingleBitError(f1[2..], f2[2..], 8 * (|f1| - 2) - 5, j);
  }
}
