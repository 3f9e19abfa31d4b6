// The receive-stream resynchroniser of `compac_listen2` (driver-bm1397.c):
// a byte buffer filled up to `pos`, rubbish skipped up to the next
// 0xAA 0x55, one rx_len-byte frame cut at a time and its CRC checked, and
// the consumed bytes dropped with `memmove`.

module Rx {
  import opened Utils
  import opened Crc5
  import opened Frame

  /** Position i holds 0xAA followed by 0x55, or by nothing read yet. */
  predicate SyncAt(s: seq<byte>, i: int)
  {
    0 <= i < |s| && s[i] == 0xaa && (i == |s| - 1 || s[i + 1] == 0x55)
  }

  /** The first sync position at or after from, or |s| when there is none. */
  function FindSync(s: seq<byte>, from: nat): (i: nat)
    requires from <= |s|
    ensures from <= i <= |s|
    ensures i < |s| ==> SyncAt(s, i)
    ensures forall j :: from <= j < i ==> !SyncAt(s, j)
    decreases |s| - from
  {
    if from == |s| then from
    else if SyncAt(s, from) then from
    else FindSync(s, from + 1)
  }

  /** The buffer starts with a complete preamble. */
  predicate Aligned(s: seq<byte>)
  {
    |s| >= 2 && s[0] == 0xaa && s[1] == 0x55
  }

  /** The buffer after the rubbish skip: as it is when aligned, else from
      the next sync position after the first byte on, or empty. */
  function Resynced(s: seq<byte>): (r: seq<byte>)
    ensures Aligned(s) ==> r == s
    ensures |r| <= |s|
  {
    if Aligned(s) then s
    else
      var i := FindSync(s, if |s| == 0 then 0 else 1);
      if i == |s| then [] else s[i..]
  }

  /** The rubbish skip drops a prefix, leaves the buffer empty or starting
      with 0xAA (then 0x55, unless that is the last byte), and skips no
      sync position after the first byte. */
  lemma ResyncedShape(s: seq<byte>)
    ensures var r := Resynced(s);
      && |r| <= |s| && r == s[|s| - |r|..]
      && (r == [] || (r[0] == 0xaa && (|r| == 1 || r[1] == 0x55)))
      && (!Aligned(s) ==> forall j :: 1 <= j < |s| - |r| ==> !SyncAt(s, j))
  {
  }

  /** One frame cut from the buffer: its rx_len bytes, how far the next
      sync position lay (`prelen`) and whether the CRC check passed. */
  datatype Cut = Cut(frame: seq<byte>, prelen: nat, okcrc: bool)

  /** What one pass of the inner loop takes from the buffer contents s and
      what it leaves. */
  datatype Taken = Taken(cut: Option<Cut>, rest: seq<byte>)

  /** One pass of the inner loop on contents of at least rx_len bytes:
      skip rubbish, then cut rx_len bytes if that many are left. */
  function Take(s: seq<byte>, rxLen: nat): (t: Taken)
    requires 3 <= rxLen <= |s|
    ensures |t.rest| < |s|
  {
    var r := Resynced(s);
    ResyncedShape(s);
    if |r| < rxLen then Taken(None, r)
    else
      var f := r[..rxLen];
      Taken(Some(Cut(f, FindSync(r, rxLen), RxCrcOk(f))), r[rxLen..])
  }

  /** Every frame `compac_listen2` hands on is exactly rx_len bytes, opens
      with 0xAA 0x55, and is consumed whole: the buffer loses the frame and
      the rubbish before it, and keeps what follows. */
  lemma TakeFrame(s: seq<byte>, rxLen: nat)
    requires 3 <= rxLen <= |s|
    ensures var t := Take(s, rxLen);
      t.cut.Some? ==>
        var r := Resynced(s);
        var f := t.cut.value.frame;
        && |f| == rxLen
        && f[..2] == [0xaa, 0x55]
        && r == f + t.rest
        && |t.rest| == |r| - rxLen
        && (t.cut.value.okcrc <==> f == Response(f[2..rxLen - 1]))
  {
    var t := Take(s, rxLen);
    if t.cut.Some? {
      var r := Resynced(s);
      ResyncedShape(s);
      var f := r[..rxLen];
      assert t.cut.value.frame == f && t.rest == r[rxLen..];
      assert f[..2] == [0xaa, 0x55];
      assert r == f + r[rxLen..];
      RxCrcOkIffResponse(f);
    }
  }

  /** With no sync position at all after the first byte, an unaligned
      buffer is emptied. */
  lemma TakeDumps(s: seq<byte>, rxLen: nat)
    requires 3 <= rxLen <= |s| && !Aligned(s)
    requires forall j :: 1 <= j < |s| ==> !SyncAt(s, j)
    ensures Take(s, rxLen) == Taken(None, [])
  {
  }

  /** `if (len == pos && (len == 8 || len == 10) && buf[pos-1] == 0xaa)
      len--` never applies with rx_len 9: a trailing 0xAA is itself a sync
      position, so the scan stops before it. */
  lemma ShortReplyAdjustUnreachable(r: seq<byte>)
    requires 9 <= |r|
    ensures var len := FindSync(r, 9);
      !(len == |r| && (len == 8 || len == 10) && r[|r| - 1] == 0xaa)
  {
  }

  /** Everything the inner loop takes out of contents s, in order, and
      the bytes it leaves for the next read. */
  datatype Drained = Drained(cuts: seq<Cut>, rest: seq<byte>)

  /** The passes of the inner loop on contents s until fewer than rx_len
      bytes are left or a pass finds no frame. */
  function Frames(s: seq<byte>, rxLen: nat): (d: Drained)
    requires rxLen >= 3
    ensures |d.rest| < rxLen
    decreases |s|
  {
    if |s| < rxLen then Drained([], s)
    else
      var t := Take(s, rxLen);
      if t.cut.None? then Drained([], t.rest)
      else
        var d := Frames(t.rest, rxLen);
        Drained([t.cut.value] + d.cuts, d.rest)
  }

  lemma MulSucc(n: nat, m: nat)
    ensures (n + 1) * m == n * m + m
  {
  }

  /** With n frames cut, the inner loop consumed at least n * rx_len bytes. */
  lemma {:induction false} FramesConsume(s: seq<byte>, rxLen: nat)
    requires rxLen >= 3
    ensures |Frames(s, rxLen).rest| + |Frames(s, rxLen).cuts| * rxLen <= |s|
    decreases |s|
  {
    if |s| >= rxLen {
      var t := Take(s, rxLen);
      if t.cut.Some? {
        TakeFrame(s, rxLen);
        ResyncedShape(s);
        FramesConsume(t.rest, rxLen);
        var d := Frames(t.rest, rxLen);
        var n := |d.cuts|;
        assert |Frames(s, rxLen).cuts| == n + 1;
        assert |d.rest| + n * rxLen <= |t.rest|;
        assert |t.rest| + rxLen <= |s|;
        MulSucc(n, rxLen);
      }
    }
  }

  /** Every frame the inner loop cuts is rx_len bytes long. */
  lemma {:induction false} FramesLength(s: seq<byte>, rxLen: nat)
    requires rxLen >= 3
    ensures forall k :: 0 <= k < |Frames(s, rxLen).cuts| ==> |Frames(s, rxLen).cuts[k].frame| == rxLen
    decreases |s|
  {
    if |s| >= rxLen {
      var t := Take(s, rxLen);
      if t.cut.Some? {
        TakeFrame(s, rxLen);
        FramesLength(t.rest, rxLen);
      }
    }
  }

  /** One step of Frames on contents of at least rx_len bytes. */
  lemma FramesUnfold(s: seq<byte>, rxLen: nat)
    requires 3 <= rxLen <= |s|
    ensures var t := Take(s, rxLen);
      && (t.cut.None? ==> Frames(s, rxLen) == Drained([], t.rest) && Frames(t.rest, rxLen) == Drained([], t.rest))
      && (t.cut.Some? ==> Frames(s, rxLen) == Drained([t.cut.value] + Frames(t.rest, rxLen).cuts, Frames(t.rest, rxLen).rest))
  {
    var t := Take(s, rxLen);
    if t.cut.None? {
      assert |t.rest| < rxLen;
    }
  }

  /** One pass of the inner loop keeps the loop's account of the frames:
      those cut so far, then the frames of what is left. */
  lemma DrainStep(s0: seq<byte>, cuts: seq<Cut>, before: seq<byte>, c: Option<Cut>, after: seq<byte>, rxLen: nat)
    requires 3 <= rxLen <= |before|
    requires Frames(s0, rxLen).cuts == cuts + Frames(before, rxLen).cuts
    requires Frames(s0, rxLen).rest == Frames(before, rxLen).rest
    requires Taken(c, after) == Take(before, rxLen)
    ensures c.None? ==> Frames(s0, rxLen) == Drained(cuts, after)
    ensures c.Some? ==> Frames(s0, rxLen).cuts == (cuts + [c.value]) + Frames(after, rxLen).cuts
    ensures c.Some? ==> Frames(s0, rxLen).rest == Frames(after, rxLen).rest
  {
    FramesUnfold(before, rxLen);
    if c.None? {
      assert cuts + [] == cuts;
    } else {
      ConsAssoc(cuts, c.value, Frames(after, rxLen).cuts);
    }
  }

  /** Once fewer than rx_len bytes are left, the frames cut so far are all
      of them and the bytes left are the remainder. */
  lemma DrainDone(s0: seq<byte>, cuts: seq<Cut>, s: seq<byte>, rxLen: nat)
    requires 3 <= rxLen && |s| < rxLen
    requires Frames(s0, rxLen).cuts == cuts + Frames(s, rxLen).cuts
    requires Frames(s0, rxLen).rest == Frames(s, rxLen).rest
    ensures Frames(s0, rxLen) == Drained(cuts, s)
  {
    assert Frames(s, rxLen) == Drained([], s);
    assert cuts + [] == cuts;
  }

  lemma ConsAssoc<T>(a: seq<T>, x: T, b: seq<T>)
    ensures a + ([x] + b) == (a + [x]) + b
  {
  }

  /** The CRC test `compac_listen2` applies to a cut frame. */
  method CrcChecked(frame: seq<byte>) returns (okcrc: bool)
    requires |frame| >= 3
    ensures okcrc == RxCrcOk(frame)
  {
    var crc := BmCrc(frame[2..], 8 * (|frame| - 2) - 5);
    okcrc := frame[|frame| - 1] <= 0x1f && crc == frame[|frame| - 1] as int;
  }

  /** One pass of the inner loop, spelt out on the skip's result. */
  lemma TakeUnfold(s: seq<byte>, rxLen: nat)
    requires 3 <= rxLen <= |s|
    ensures var r := Resynced(s);
      && (|r| < rxLen ==> Take(s, rxLen) == Taken(None, r))
      && (|r| >= rxLen ==>
            Take(s, rxLen) == Taken(Some(Cut(r[..rxLen], FindSync(r, rxLen), RxCrcOk(r[..rxLen]))), r[rxLen..]))
  {
  }

  /** `tu8_rx_buffer` and `pos` of `compac_listen2`. */
  class RxBuffer {
    const rxLen: nat
    const buf: array<byte>
    var pos: nat

    ghost predicate Valid()
      reads this
    {
      pos <= buf.Length && rxLen >= 3
    }

    /** The bytes read and not yet consumed. */
    ghost function Contents(): seq<byte>
      reads this, buf
      requires Valid()
    {
      buf[..pos]
    }

    /** A zeroed buffer of BUFFER_MAX bytes, empty. */
    constructor (size: nat, rxLen: nat)
      requires rxLen >= 3
      ensures Valid() && this.rxLen == rxLen && buf.Length == size && fresh(buf)
      ensures Contents() == []
    {
      this.rxLen := rxLen;
      buf := new byte[size](_ => 0);
      pos := 0;
    }

    /** `usb_read_timeout(buf + pos, BUFFER_MAX - pos)` then `pos +=
        read_bytes`: the bytes read arrive as data. */
    method Append(data: seq<byte>)
      requires Valid() && pos + |data| <= buf.Length
      modifies this`pos, buf
      ensures Valid() && Contents() == old(Contents()) + data
    {
      var k := 0;
      while k < |data|
        invariant pos == old(pos) && 0 <= k <= |data|
        invariant buf[..pos] == old(buf[..pos]) && buf[pos..pos + k] == data[..k]
      {
        buf[pos + k] := data[k];
        k := k + 1;
      }
      assert data[..k] == data;
      assert buf[..pos + |data|] == buf[..pos] + buf[pos..pos + |data|];
      assert buf[..pos + |data|] == old(buf[..pos]) + data;
      pos := pos + |data|;
    }

    /** `memmove(buf, buf + i, pos - i); pos -= i`. */
    method Drop(i: nat)
      requires Valid() && i <= pos
      modifies this`pos, buf
      ensures Valid() && Contents() == old(Contents())[i..]
    {
      var k := 0;
      while k < pos - i
        invariant pos == old(pos) && Valid() && 0 <= k <= pos - i
        invariant buf[..k] == old(buf[i..pos])[..k]
        invariant buf[k..] == old(buf[k..])
      {
        buf[k] := buf[k + i];
        k := k + 1;
      }
      pos := pos - i;
    }

    /** The scan `for (i = from; i < pos; i++)` for the next 0xAA 0x55. */
    method ScanSync(from: nat) returns (i: nat)
      requires Valid() && from <= pos
      ensures i == FindSync(Contents(), from)
    {
      i := from;
      while i < pos && !(buf[i] == 0xaa && (i == pos - 1 || buf[i + 1] == 0x55))
        invariant from <= i <= pos
        invariant FindSync(Contents(), from) == FindSync(Contents(), i)
      {
        i := i + 1;
      }
    }

    /** The rubbish skip. */
    method Resync()
      requires Valid()
      modifies this`pos, buf
      ensures Valid() && Contents() == Resynced(old(Contents()))
    {
      if pos < 2 || buf[0] != 0xaa || buf[1] != 0x55 {
        var i := ScanSync(if pos == 0 then 0 else 1);
        if i >= pos {
          pos := 0;
        } else {
          Drop(i);
        }
      }
    }

    /** One pass of the inner loop: skip rubbish, and when rx_len bytes are
        left, cut them as a frame, check its CRC and drop them. */
    method Next() returns (cut: Option<Cut>)
      requires Valid() && pos >= rxLen
      modifies this`pos, buf
      ensures Valid() && Taken(cut, Contents()) == Take(old(Contents()), rxLen)
    {
      ghost var s := Contents();
      Resync();
      TakeUnfold(s, rxLen);
      if pos < rxLen {
        cut := None;
      } else {
        var c := CutFrame();
        cut := Some(c);
      }
    }

    /** The cut of the first rx_len bytes: the frame, the scan position
        past it, its CRC verdict, and the drop. */
    method CutFrame() returns (cut: Cut)
      requires Valid() && pos >= rxLen
      modifies this`pos, buf
      ensures Valid()
      ensures var r := old(Contents());
        && cut == Cut(r[..rxLen], FindSync(r, rxLen), RxCrcOk(r[..rxLen]))
        && Contents() == r[rxLen..]
    {
      ghost var r := Contents();
      var prelen := ScanSync(rxLen);
      var frame := buf[..rxLen];
      assert frame == r[..rxLen];
      var okcrc := CrcChecked(frame);
      cut := Cut(frame, prelen, okcrc);
      Drop(rxLen);
    }

    /** One pass of the inner loop, accounted against the frames of the
        contents s0 the loop started from: the frames cut so far are cuts. */
    method DrainPass(ghost s0: seq<byte>, cuts: seq<Cut>) returns (c: Option<Cut>)
      requires Valid() && pos >= rxLen
      requires Frames(s0, rxLen).cuts == cuts + Frames(Contents(), rxLen).cuts
      requires Frames(s0, rxLen).rest == Frames(Contents(), rxLen).rest
      modifies this`pos, buf
      ensures Valid() && pos < old(pos)
      ensures c.None? ==> Drained(cuts, Contents()) == Frames(s0, rxLen)
      ensures c.Some? ==> Frames(s0, rxLen).cuts == (cuts + [c.value]) + Frames(Contents(), rxLen).cuts
      ensures c.Some? ==> Frames(s0, rxLen).rest == Frames(Contents(), rxLen).rest
    {
      ghost var before := Contents();
      c := Next();
      DrainStep(s0, cuts, before, c, Contents(), rxLen);
    }

    /** The inner loop after a read that returned bytes: cut frames while
        at least rx_len bytes are buffered. */
    method Drain() returns (cuts: seq<Cut>)
      requires Valid()
      modifies this`pos, buf
      ensures Valid() && Drained(cuts, Contents()) == Frames(old(Contents()), rxLen)
    {
      cuts := [];
      ghost var s0 := Contents();
      while pos >= rxLen
        invariant Valid()
        invariant Frames(s0, rxLen).cuts == cuts + Frames(Contents(), rxLen).cuts
        invariant Frames(s0, rxLen).rest == Frames(Contents(), rxLen).rest
        decreases pos
      {
        var c := DrainPass(s0, cuts);
        if c.None? {
          return;
        }
        cuts := cuts + [c.value];
      }
      DrainDone(s0, cuts, Contents(), rxLen);
    }
  }
}
