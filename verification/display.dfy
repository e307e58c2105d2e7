/** The two preview panes and the size each one is drawn at. */
module Display {
  import opened Base
  import opened Threshold

  /** Width and height in pixels. */
  datatype Size = Size(width: int, height: int)

  /** The fallback `get_frame_size` uses before a frame has been laid out. */
  const DefaultSize := Size(300, 400)

  /** Below this many pixels in either direction a frame counts as not yet drawn. */
  const MinDrawn := 10

  /** `get_frame_size`: the frame's measured size, or the default while either
      dimension is still below 10 pixels. */
  function FrameSize(measured: Size): (s: Size)
    ensures s.width >= MinDrawn && s.height >= MinDrawn
    ensures measured.width >= MinDrawn && measured.height >= MinDrawn ==> s == measured
    ensures measured.width < MinDrawn || measured.height < MinDrawn ==> s == DefaultSize
  {
    if measured.width < MinDrawn || measured.height < MinDrawn then DefaultSize else measured
  }

  /** A size `get_frame_size` returns is returned unchanged when measured again. */
  lemma FrameSizeStable(measured: Size)
    ensures FrameSize(FrameSize(measured)) == FrameSize(measured)
  {
  }

  /** What a pane shows: a colour image or a single-channel one. */
  datatype Picture = Colour(pixels: seq<Bgr>) | Mono(levels: seq<Byte>)

  /** A Tk label holding an image (`Showing`) or configured with `image=''`. */
  datatype Pane = Blank | Showing(picture: Picture, size: Size)

  /** The second pane's content: the binary image when `showBinary`, the
      filtered image otherwise. */
  function ResultPicture(showBinary: bool, out: Outputs): Picture {
    if showBinary then Mono(out.binary) else Colour(out.filtered)
  }
}
