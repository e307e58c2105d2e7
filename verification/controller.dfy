/**
 The application state of `HSVRangeFinder` and its event handlers: a
 processing pass (`process_and_display_image`, also run by every
 `update_frame` tick), the view toggle, image loading and the two Copy
 buttons. The image library's colour conversions are parameters, as are the
 frames' measured sizes and the outcome of the file dialog and decoder.
 */
module Controller {
  import opened Base
  import opened PyText
  import opened Params
  import opened Threshold
  import opened Display
  import opened RangeText

  /** The library's per-pixel colour conversions (`COLOR_BGR2HSV`, `COLOR_BGR2GRAY`). */
  datatype Converters = Converters(toHsv: Bgr -> Hsv, toGray: Bgr -> Byte)

  /** `winfo_width`/`winfo_height` of the two image frames at the time of a pass. */
  datatype Geometry = Geometry(original: Size, result: Size)

  datatype App = App(
    controls: Controls,
    image: Option<seq<Bgr>>,   // `loaded_image`
    showBinary: bool,
    resultTitle: string,       // caption of the result frame
    toggleCaption: string,     // text of the toggle button
    originalPane: Pane,        // `vidLabel1`
    resultPane: Pane)          // `vidLabel2`

  const FilteredTitle := "Filtered Image"
  const BinaryTitle := "Binary Mask"
  const ShowBinaryCaption := "Show Binary Mask"
  const ShowFilteredCaption := "Show Filtered Image"
  const MissingFileMessage := "Selected file does not exist."
  const DecodeFailedMessage := "Could not load image. Please ensure it's a valid image file."

  /** The state right after construction: no image, filtered view selected. */
  function Start(): App {
    App(Params.Initial(), None, false, FilteredTitle, ShowBinaryCaption, Blank, Blank)
  }

  /** The captions agree with the selected view. */
  predicate CaptionsMatch(app: App) {
    && app.resultTitle == (if app.showBinary then BinaryTitle else FilteredTitle)
    && app.toggleCaption == (if app.showBinary then ShowFilteredCaption else ShowBinaryCaption)
  }

  ghost predicate Good(app: App) {
    Consistent(app.controls) && CaptionsMatch(app)
  }

  /** The lower bound `[l_h, l_s, l_v]` read from the variables (not the entries). */
  function LowerBound(cs: Controls): Triple {
    Triple(Get(cs, Knob(Lower, Hue)).value, Get(cs, Knob(Lower, Saturation)).value,
           Get(cs, Knob(Lower, Value)).value)
  }

  function UpperBound(cs: Controls): Triple {
    Triple(Get(cs, Knob(Upper, Hue)).value, Get(cs, Knob(Upper, Saturation)).value,
           Get(cs, Knob(Upper, Value)).value)
  }

  /** `process_and_display_image`. With no image both panes are cleared and
      nothing else happens. Otherwise the first pane shows the image and the
      second the filtered or the binary image, each at its frame's size. */
  function Process(app: App, conv: Converters, geo: Geometry): (r: App)
    ensures r.(originalPane := app.originalPane, resultPane := app.resultPane) == app
    ensures app.image.None? ==> r.originalPane == Blank && r.resultPane == Blank
    ensures app.image.Some? ==>
              var img := app.image.value;
              var lower := LowerBound(app.controls);
              var upper := UpperBound(app.controls);
              && r.originalPane == Showing(Colour(img), FrameSize(geo.original))
              && r.resultPane.Showing?
              && r.resultPane.size == FrameSize(geo.result)
              && (r.resultPane.picture.Mono? <==> app.showBinary)
              && (!app.showBinary ==>
                    var shown := r.resultPane.picture.pixels;
                    |shown| == |img|
                    && forall i :: 0 <= i < |img| ==>
                         shown[i] == if Within(conv.toHsv(img[i]), lower, upper) then img[i] else Black)
              && (app.showBinary ==>
                    var shown := r.resultPane.picture.levels;
                    |shown| == |img|
                    && forall i :: 0 <= i < |img| ==>
                         (shown[i] == 0 || shown[i] == Full)
                         && (Within(conv.toHsv(img[i]), lower, upper) ==>
                               (shown[i] == Full <==> conv.toGray(img[i]) > 0))
                         && (!Within(conv.toHsv(img[i]), lower, upper) ==>
                               (shown[i] == Full <==> conv.toGray(Black) > 0)))
  {
    match app.image
    case None => app.(originalPane := Blank, resultPane := Blank)
    case Some(img) =>
      var hsv := Convert(img, conv.toHsv);
      var out := Threshold.Run(img, hsv, LowerBound(app.controls), UpperBound(app.controls), conv.toGray);
      app.(originalPane := Showing(Colour(img), FrameSize(geo.original)),
           resultPane := Showing(ResultPicture(app.showBinary, out), FrameSize(geo.result)))
  }

  /** Reprocessing without any change in between gives the same state: the
      100 ms timer may run the pass any number of times. */
  lemma ProcessIdempotent(app: App, conv: Converters, geo: Geometry)
    ensures Process(Process(app, conv, geo), conv, geo) == Process(app, conv, geo)
  {
  }

  /** `toggle_result_view`: flip the view, update both captions, reprocess. */
  function Toggle(app: App, conv: Converters, geo: Geometry): (r: App)
    ensures r.showBinary == !app.showBinary
    ensures CaptionsMatch(r)
    ensures r.controls == app.controls && r.image == app.image
    ensures r.image.Some? ==> r.resultPane.Showing? && (r.resultPane.picture.Mono? <==> r.showBinary)
    ensures Process(r, conv, geo) == r
  {
    var flipped := !app.showBinary;
    var app' := app.(showBinary := flipped,
                     resultTitle := if flipped then BinaryTitle else FilteredTitle,
                     toggleCaption := if flipped then ShowFilteredCaption else ShowBinaryCaption);
    Process(app', conv, geo)
  }

  /** Two toggles restore the view and the captions; what remains is one
      processing pass. */
  lemma ToggleTwice(app: App, conv: Converters, geo: Geometry)
    requires CaptionsMatch(app)
    ensures Toggle(Toggle(app, conv, geo), conv, geo) == Process(app, conv, geo)
  {
  }

  /** What the file dialog and the decoder produced: the dialog was
      cancelled (empty path), or a path was chosen, which may not exist and
      may not decode (`cv2.imread` returning `None`). */
  datatype Selection = Cancelled | Chosen(present: bool, decoded: Option<seq<Bgr>>)

  /** The new state and the error box shown, if any. */
  datatype LoadResult = LoadResult(app: App, error: Option<string>)

  /** `load_image` after the dialog: a missing file or an undecodable one
      shows an error and returns early; a decoded image replaces the loaded
      one and is processed at once. */
  function Load(app: App, sel: Selection, conv: Converters, geo: Geometry): (r: LoadResult)
    ensures r.error.Some? <==> sel.Chosen? && (!sel.present || sel.decoded.None?)
    ensures sel.Chosen? && !sel.present ==> r.error == Some(MissingFileMessage)
    ensures sel.Chosen? && sel.present && sel.decoded.None? ==> r.error == Some(DecodeFailedMessage)
    ensures r.error.Some? || sel.Cancelled? ==> r.app == app
    ensures r.app.image != app.image ==> sel.Chosen? && sel.present && r.app.image == sel.decoded
    ensures sel.Chosen? && sel.present && sel.decoded.Some? ==>
              r.app.image == sel.decoded && r.app.controls == app.controls
              && r.app.showBinary == app.showBinary && r.app.originalPane.Showing?
    ensures sel.Chosen? && sel.present && sel.decoded.Some? ==>
              r.app == Process(app.(image := sel.decoded), conv, geo)
  {
    match sel
    case Cancelled => LoadResult(app, None)
    case Chosen(present, decoded) =>
      if !present then LoadResult(app, Some(MissingFileMessage))
      else if decoded.None? then LoadResult(app, Some(DecodeFailedMessage))
      else LoadResult(Process(app.(image := decoded), conv, geo), None)
  }

  /** `get_lowerRange`: the text the first Copy button puts on the clipboard. */
  function CopyLower(app: App): (r: string)
    ensures r == FormatRange(LowerBound(app.controls))
    ensures ParseRange(r) == Some(LowerBound(app.controls))
  {
    var cs := app.controls;
    ParseFormat(LowerBound(cs));
    Join3(Reading(cs, Knob(Lower, Hue)), Reading(cs, Knob(Lower, Saturation)), Reading(cs, Knob(Lower, Value)))
  }

  /** `get_upperRange`: the text the second Copy button puts on the clipboard. */
  function CopyUpper(app: App): (r: string)
    ensures r == FormatRange(UpperBound(app.controls))
    ensures ParseRange(r) == Some(UpperBound(app.controls))
  {
    var cs := app.controls;
    ParseFormat(UpperBound(cs));
    Join3(Reading(cs, Knob(Upper, Hue)), Reading(cs, Knob(Upper, Saturation)), Reading(cs, Knob(Upper, Value)))
  }

  /** Right after start-up the upper Copy button yields "0,0,0", although the
      upper entries read 179, 255 and 255. */
  lemma StartCopiesZeroUpper()
    ensures CopyUpper(Start()) == "0,0,0"
  {
    StartReadsZero(Hue);
    StartReadsZero(Saturation);
    StartReadsZero(Value);
    assert CopyUpper(Start()) == Join3("0", "0", "0");
    assert Join3("0", "0", "0") == "0,0,0";
  }

  lemma StartReadsZero(c: Channel)
    ensures Reading(Start().controls, Knob(Upper, c)) == "0"
  {
    assert NatStr(0) == [DigitChar(0)];
  }

  /** Everything the user or the timer can do. */
  datatype Event =
    | Slid(knob: Knob, pos: int)
    | Typed(knob: Knob, text: string)
    | Confirmed(knob: Knob)                // Return or focus-out in an entry
    | Toggled(geo: Geometry)
    | LoadAttempted(sel: Selection, geo: Geometry)
    | Ticked(geo: Geometry)                // one `update_frame` pass

  /** A slider can only be dragged to a position inside its range. */
  predicate Possible(e: Event) {
    e.Slid? ==> InDomain(e.knob.channel, e.pos)
  }

  function Step(app: App, e: Event, conv: Converters): App
    requires Possible(e)
  {
    match e
    case Slid(k, pos) => app.(controls := Slide(app.controls, k, pos))
    case Typed(k, text) => app.(controls := Type(app.controls, k, text))
    case Confirmed(k) => app.(controls := Commit(app.controls, k))
    case Toggled(geo) => Toggle(app, conv, geo)
    case LoadAttempted(sel, geo) => Load(app, sel, conv, geo).app
    case Ticked(geo) => Process(app, conv, geo)
  }

  lemma StepKeepsGood(app: App, e: Event, conv: Converters)
    requires Good(app) && Possible(e)
    ensures Good(Step(app, e, conv))
  {
    match e
    case Slid(k, pos) => SlidePreservesConsistent(app.controls, k, pos);
    case Typed(k, text) => TypePreservesConsistent(app.controls, k, text);
    case Confirmed(k) => CommitPreservesConsistent(app.controls, k);
    case Toggled(geo) =>
    case LoadAttempted(sel, geo) =>
    case Ticked(geo) =>
  }

  function Replay(app: App, events: seq<Event>, conv: Converters): App
    requires forall i :: 0 <= i < |events| ==> Possible(events[i])
    decreases |events|
  {
    if |events| == 0 then app else Replay(Step(app, events[0], conv), events[1..], conv)
  }

  /** In every state reachable from start-up, each parameter lies in its
      domain, each label prints its parameter, and the captions match the
      selected view. */
  lemma {:induction false} ReplayKeepsGood(app: App, events: seq<Event>, conv: Converters)
    requires Good(app)
    requires forall i :: 0 <= i < |events| ==> Possible(events[i])
    ensures Good(Replay(app, events, conv))
    decreases |events|
  {
    if |events| > 0 {
      StepKeepsGood(app, events[0], conv);
      ReplayKeepsGood(Step(app, events[0], conv), events[1..], conv);
    }
  }

  lemma StartGood()
    ensures Good(Start())
  {
    InitialConsistent();
  }
}
