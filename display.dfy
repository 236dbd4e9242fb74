/** The frame serialiser of main.c: copy_image cuts an image into I2C frames,
    each the data control byte followed by at most one chunk of the image,
    and solid_background sends a whole panel of one repeated byte. */
module Display {
  import opened CTypes

  /** SSD1306_HEIGHT and SSD1306_WIDTH, in pixels. */
  const PanelHeight := 64
  const PanelWidth := 128
  /** SSD1306_BYTES: one bit per pixel. */
  const PanelBytes := PanelHeight * PanelWidth / 8
  /** I2C_DATA_CHUNK: the most image bytes one frame carries. */
  const ChunkSize := PanelBytes
  /** The control byte that marks the rest of a frame as display data. */
  const DataControl: uint8 := 0x40

  /** The min macro. */
  function Min(a: int, b: int): (m: int)
    ensures m <= a && m <= b && (m == a || m == b)
  {
    if a < b then a else b
  }

  datatype Option<T> = None | Some(value: T)

  /** The frames copy_image sends for the image img, in order. */
  function Frames(img: seq<uint8>): seq<seq<uint8>>
    decreases |img|
  {
    if |img| == 0 then []
    else
      var n := Min(ChunkSize, |img|);
      [[DataControl] + img[..n]] + Frames(img[n..])
  }

  /** What a receiver makes of a sequence of frames: their payloads joined in
      order, or None when a frame does not start with the data control
      byte. */
  function Payloads(frames: seq<seq<uint8>>): Option<seq<uint8>> {
    if frames == [] then Some([])
    else if |frames[0]| == 0 || frames[0][0] != DataControl then None
    else match Payloads(frames[1..])
      case None => None
      case Some(rest) => Some(frames[0][1..] + rest)
  }

  /** Frames as copy_image cuts them: each starts with the control byte and
      carries 1 to ChunkSize image bytes, and all but the last carry exactly
      ChunkSize. */
  predicate WellFormed(frames: seq<seq<uint8>>) {
    forall k :: 0 <= k < |frames| ==>
      2 <= |frames[k]| <= ChunkSize + 1 && frames[k][0] == DataControl &&
      (k < |frames| - 1 ==> |frames[k]| == ChunkSize + 1)
  }

  /** Every frame starts with 0x40 and fits data_buf, whose size is
      ChunkSize + 1; only the last may be short. */
  lemma {:induction false} FramesWellFormed(img: seq<uint8>)
    ensures WellFormed(Frames(img))
    decreases |img|
  {
    if |img| > 0 {
      var n := Min(ChunkSize, |img|);
      FramesWellFormed(img[n..]);
      var fs := Frames(img);
      forall k | 1 <= k < |fs|
        ensures 2 <= |fs[k]| <= ChunkSize + 1 && fs[k][0] == DataControl
        ensures k < |fs| - 1 ==> |fs[k]| == ChunkSize + 1
      {
        assert fs[k] == Frames(img[n..])[k - 1];
      }
      assert |img[n..]| > 0 ==> n == ChunkSize;
    }
  }

  /** Dropping the control byte of each frame and joining the payloads gives
      back the image, whole and in order. */
  lemma {:induction false} FramesRoundTrip(img: seq<uint8>)
    ensures Payloads(Frames(img)) == Some(img)
    decreases |img|
  {
    if |img| > 0 {
      var n := Min(ChunkSize, |img|);
      FramesRoundTrip(img[n..]);
      var fs := Frames(img);
      assert fs[0] == [DataControl] + img[..n];
      assert fs[1..] == Frames(img[n..]);
      assert fs[0][1..] == img[..n];
      assert img[..n] + img[n..] == img;
    }
  }

  /** The other way round: every well-formed frame sequence is exactly the
      one copy_image sends for the image it carries. */
  lemma {:induction false} PayloadsRoundTrip(frames: seq<seq<uint8>>)
    requires WellFormed(frames)
    ensures Payloads(frames).Some?
    ensures Frames(Payloads(frames).value) == frames
    decreases |frames|
  {
    if frames != [] {
      var f := frames[0];
      assert WellFormed(frames[1..]) by {
        forall k | 0 <= k < |frames[1..]|
          ensures 2 <= |frames[1..][k]| <= ChunkSize + 1 && frames[1..][k][0] == DataControl
          ensures k < |frames[1..]| - 1 ==> |frames[1..][k]| == ChunkSize + 1
        {
          assert frames[1..][k] == frames[k + 1];
        }
      }
      PayloadsRoundTrip(frames[1..]);
      var rest := Payloads(frames[1..]).value;
      var img := f[1..] + rest;
      assert Payloads(frames) == Some(img);
      var n := Min(ChunkSize, |img|);
      assert n == |f| - 1 by {
        if |frames| > 1 {
          assert |f| == ChunkSize + 1;
        } else {
          assert rest == [];
        }
      }
      assert img[..n] == f[1..] && img[n..] == rest;
      assert [DataControl] + f[1..] == f;
    }
  }

  /** copy_image sends ceil(length / ChunkSize) frames, and none for an
      empty image. */
  lemma {:induction false} FramesCount(img: seq<uint8>)
    ensures |Frames(img)| == (|img| + ChunkSize - 1) / ChunkSize
    decreases |img|
  {
    assert ChunkSize == 1024;
    if |img| > 0 {
      var n := Min(ChunkSize, |img|);
      FramesCount(img[n..]);
      assert |Frames(img)| == 1 + |Frames(img[n..])|;
      if |img| > ChunkSize {
        assert (|img| - ChunkSize + ChunkSize - 1) / ChunkSize + 1 == (|img| + ChunkSize - 1) / ChunkSize;
      }
    }
  }

  /** Frame k starts at offset k * ChunkSize, which is below the image's
      length, and carries the image bytes from there up to the next offset
      or the end: the loop counter advances by exactly ChunkSize. */
  lemma {:induction false} FramesAt(img: seq<uint8>, k: nat)
    requires k < |Frames(img)|
    ensures k * ChunkSize < |img|
    ensures Frames(img)[k] == [DataControl] + img[k * ChunkSize .. Min((k + 1) * ChunkSize, |img|)]
    decreases k
  {
    assert ChunkSize == 1024;
    var n := Min(ChunkSize, |img|);
    if k > 0 {
      FramesAt(img[n..], k - 1);
      assert n == ChunkSize;
      var lo, hi := (k - 1) * ChunkSize, Min(k * ChunkSize, |img| - n);
      assert lo + n == k * ChunkSize && hi + n == Min((k + 1) * ChunkSize, |img|);
      assert img[n..][lo .. hi] == img[lo + n .. hi + n];
    }
  }

  /** One step of the loop: the frame at offset i, then the frames for the
      rest of the image. */
  lemma FramesStep(data: seq<uint8>, i: nat)
    requires i < |data|
    ensures Frames(data[i..]) ==
      [[DataControl] + data[i .. i + Min(ChunkSize, |data| - i)]] +
      Frames(if i + ChunkSize < |data| then data[i + ChunkSize..] else [])
  {
    var n := Min(ChunkSize, |data| - i);
    assert data[i..][..n] == data[i .. i + n];
    if i + ChunkSize < |data| {
      assert data[i..][n..] == data[i + ChunkSize..];
    } else {
      assert data[i..][n..] == [];
    }
  }

  /** solid_background's image is one chunk long, so it goes out as a single
      frame: the control byte and PanelBytes copies of the value. */
  lemma SolidBackgroundFrames(val: uint8)
    ensures Frames(seq(PanelBytes, _ => val)) == [[DataControl] + seq(PanelBytes, _ => val)]
  {
    var img := seq(PanelBytes, _ => val);
    assert img[..PanelBytes] == img;
    assert img[PanelBytes..] == [];
  }

  /** The I2C link as copy_image uses it: the frames transmitted so far. */
  class Link {
    var sent: seq<seq<uint8>>

    constructor()
      ensures sent == []
    {
      sent := [];
    }

    /** i2c_transmit: one start condition, buf[0 .. length), one stop
        condition; a length of 0 or less sends an empty frame. */
    method Transmit(buf: array<uint8>, length: int)
      requires length <= buf.Length
      modifies this
      ensures sent == old(sent) + [buf[..if length < 0 then 0 else length]]
    {
      var n := if length < 0 then 0 else length;
      sent := sent + [buf[..n]];
    }

    /** copy_image */
    method CopyImage(img: array<uint8>, length: int)
      requires length <= img.Length
      modifies this
      ensures sent == old(sent) + Frames(img[..if length < 0 then 0 else length])
    {
      assert ChunkSize == 1024;
      ghost var data := img[..if length < 0 then 0 else length];
      ghost var target := sent + Frames(data);
      var i := 0;
      while i < length
        invariant 0 <= i && i % ChunkSize == 0
        invariant sent + Frames(if i < |data| then data[i..] else []) == target
        decreases length - i
      {
        var dataBuf := new uint8[ChunkSize + 1];
        dataBuf[0] := DataControl;

        var chunkSize := Min(ChunkSize, length - i);
        forall k | 0 <= k < chunkSize {
          dataBuf[k + 1] := img[i + k];
        }

        ghost var payload, chunk := dataBuf[1 .. chunkSize + 1], data[i .. i + chunkSize];
        forall k | 0 <= k < chunkSize ensures payload[k] == chunk[k] {
          assert payload[k] == dataBuf[k + 1] && chunk[k] == img[i + k];
        }
        assert payload == chunk;
        assert dataBuf[..chunkSize + 1] == [dataBuf[0]] + dataBuf[1 .. chunkSize + 1];
        FramesStep(data, i);
        Transmit(dataBuf, chunkSize + 1);
        i := i + ChunkSize;
      }
    }

    /** solid_background: a panel's worth of val, sent through copy_image as
        exactly one frame. */
    method SolidBackground(val: uint8)
      modifies this
      ensures sent == old(sent) + [[DataControl] + seq(PanelBytes, _ => val)]
    {
      var img := new uint8[PanelBytes](_ => val);
      CopyImage(img, PanelBytes);
      assert img[..PanelBytes] == seq(PanelBytes, _ => val);
      SolidBackgroundFrames(val);
    }
  }
}
