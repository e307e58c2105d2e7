# HSV Range Finder — Dafny model

A model of the core of the HSV Range Finder, a Tk desktop tool for finding
the HSV bounds that isolate a colour in a still image. The user loads an
image and moves six sliders: lower and upper hue, saturation and value. Each
slider is paired with an entry box and a label. A 100 ms timer reprocesses the
image. The second pane shows either the colour-filtered image or a binary
mask, and two Copy buttons put the bounds on the clipboard as `"h,s,v"`.

The model is functional. The application state is an immutable record, and
every event is a pure transition function. The pixel pipeline is a set of
pointwise functions over sequences of pixels.

| file | module | what it models |
|---|---|---|
| base.dfy | `Base` | `Option`, the 8-bit `Byte` |
| pytext.dfy | `PyText` | Python's `int(text)` and `str(n)` for decimal text |
| params.dfy | `Params` | the six parameters; their slider, entry and label views; the slider and entry handlers |
| threshold.dfy | `Threshold` | `cv2.inRange`, `cv2.bitwise_and` with a mask, `cv2.threshold(..., 0, 255, THRESH_BINARY)` |
| display.dfy | `Display` | `get_frame_size` and the two panes |
| rangetext.dfy | `RangeText` | the clipboard text `"h,s,v"` and a reader for it |
| controller.dfy | `Controller` | the application state, the processing pass, toggle, load, copy, event replay |

Modelling choices:
- A parameter's value is the Tk `DoubleVar` that its slider is bound to. It is
  an integer, because the sliders have resolution 1.
- The processing pass reads the bounds from these variables. It never reads
  the entry or label text.
- An entry handler sets the variable. In Tk, that moves the slider without
  running the slider's command. So a confirmed entry keeps the text exactly
  as the user typed it.
- Images are row-major sequences of pixels. Every step is pointwise, so
  "same length" means "same height and width".
- The BGR→HSV and BGR→grey conversions are library arithmetic. They are
  parameters (`Controller.Converters`), not modelled. The only assumption is
  that grey maps black to 0, and it is stated where it is used.
- The frames' measured sizes and the outcome of the file dialog and the
  decoder are inputs.

What the code does, and the model with it:
- Every 100 ms tick reprocesses the image. Nothing is cached or debounced
  (`Controller.ProcessIdempotent`).
- An out-of-range entry is ignored, not clamped.
- Loading does no size check.
- The initial state does not have its views in sync. All six variables
  start at 0 and every label reads "0", but the upper entries read 179, 255
  and 255 (`Params.InitialUpperEntriesDisagree`,
  `Controller.StartCopiesZeroUpper`).

## Model

| member | source | states |
|---|---|---|
| PyText.ParseInt | main.py:333-339 | entry text that parses as an integer contains a decimal digit and consists only of whitespace, signs, digits and underscores. So text like "12.0", "abc" or "" takes the handler's `ValueError` path |
| PyText.ParseStr | main.py:342-346 | `int(str(n)) == n` for every integer: the text a slider handler writes into an entry reads back as the slider value |
| PyText.SeparatorRejected | main.py:332-338 | text holding any of the separators 0x1C–0x1F anywhere, such as "\x1c7", is not an integer, so the handler ignores it |
| PyText.ParsePadded | main.py:333-334 | an entry holding a printed integer with whitespace around it is read as that integer |
| Params.Slide | main.py:342-346 | after a slider event, the value is the slider position, and the label and the entry both print it (all three views agree); the other five parameters are untouched (likewise `ls_changed`, `lv_changed`, `uh_changed`, `us_changed`, `uv_changed`) |
| Params.Type | main.py:85-88 | editing an entry changes only that entry's text; value and label wait for Return or focus-out |
| Params.Commit | main.py:332-339 | the entry handler never rewrites the entry text and touches no other parameter. It either changes nothing, or sets value and label to the integer the entry parses to, which lies inside the domain. Any text that parses to an in-domain integer ("+7", "07", " 7 ", "0_7") stores that integer in value and label. Any other text changes nothing (likewise for the other five entry handlers) |
| Params.TypedNumberAccepted | main.py:392-399 | typing `str(v)` and confirming it sets value and label to `v` exactly when `0 <= v <= 179` for hue or `0 <= v <= 255` for saturation and value; otherwise value and label stay as they were |
| Params.RejectedCommitChangesNothing | main.py:371-378 | text that is not an integer, or an integer outside the domain, leaves every value and label unchanged, and the typed text stays in the entry |
| Params.PathsConverge | main.py:332-346 | sliding to `v` and confirming the typed text `str(v)` end in the same state |
| Params.InitialConsistent | main.py:144-159 | at start-up every value lies in its domain and every label prints its value |
| Params.InitialUpperEntriesDisagree | main.py:168-174 | at start-up each upper entry shows the channel maximum while its value is 0, so the views are not in sync |
| Params.SlidePreservesConsistent | main.py:353-357 | a slider event keeps every value in its domain and every label printing its value |
| Params.TypePreservesConsistent | main.py:94-97 | editing an entry keeps every value in its domain and every label printing its value |
| Params.CommitPreservesConsistent | main.py:444-451 | an entry handler keeps every value in its domain and every label printing its value |
| Params.Reading | main.py:327-329 | the getter's text (`'{:.0f}'` of the variable) reads back as the parameter's value |
| Threshold.InRange | main.py:290 | the mask has one byte per pixel; the byte is 255 iff every channel lies within its inclusive bounds, and 0 otherwise |
| Threshold.InvertedRangeMasksNothing | main.py:286-290 | when the lower bound exceeds the upper one on any channel, the mask is all 0 |
| Threshold.ByteAndSelf | main.py:291 | a byte ANDed with itself is unchanged |
| Threshold.MaskedAnd | main.py:291 | a masked bitwise AND has one pixel per input pixel: the AND of the two sources where the mask is non-zero, black where it is 0 |
| Threshold.SelfAndKeepsMasked | main.py:291 | ANDing the image with itself under the mask keeps masked pixels as they are and blacks out the rest |
| Threshold.Binarize | main.py:293 | the binary image has one byte per grey level: 255 iff the level is above 0, else 0, so every byte is 0 or 255 |
| Threshold.Run | main.py:284-293 | mask, filtered and binary images all have the image's length. Mask bit set iff the pixel is in range. Filtered pixel = original in range, black otherwise. Binary = 255 inside the range iff the pixel's grey is above 0; outside, it depends only on the grey of black |
| Threshold.BinaryInsideMask | main.py:291-293 | with a grey conversion that maps black to 0, a binary pixel is 255 iff its mask bit is set and its grey is above 0, so a pixel outside the mask is 0 |
| Threshold.InvertedRangeBlanks | main.py:286-293 | an inverted bound gives an all-zero mask, an all-black filtered image and an all-zero binary image |
| Display.FrameSize | main.py:295-301 | the size is (300, 400) when the measured width or height is below 10, and the measured size otherwise; both components are always at least 10 |
| Display.FrameSizeStable | main.py:295-301 | measuring a returned size again returns it unchanged |
| Controller.Process | main.py:278-320 | without an image, both panes are cleared and nothing else changes. With one, the first pane shows the image and the second shows the binary image iff `show_binary` (the filtered image otherwise), each at its frame's size. A binary pixel is 255 exactly when the grey level of the pixel is positive inside the range, and of black outside it. Only the panes change |
| Controller.ProcessIdempotent | main.py:323-325 | running the pass again without any change in between gives the same state, so repeated timer ticks agree |
| Controller.Toggle | main.py:473-481 | the toggle flips `show_binary`, sets both captions to match, and leaves parameters and image alone. The panes are exactly what one processing pass over the toggled state draws: with an image, the second pane shows the binary image iff `show_binary`, at the result frame's size |
| Controller.ToggleTwice | main.py:473-481 | two toggles restore the view and the captions, leaving one processing pass |
| Controller.Load | main.py:257-273 | a cancelled dialog changes nothing. A missing file and an undecodable file each show their own message and leave the state unchanged, including the loaded image. Only a decoded image replaces the loaded one, and the result is exactly one processing pass over the state with the new image, so both panes show it |
| Controller.CopyLower | main.py:184-186 | the lower Copy text splits at commas into three fields that parse back to the lower bound the variables hold, not to the entry texts |
| Controller.CopyUpper | main.py:189-191 | the upper Copy text splits at commas into three fields that parse back to the upper bound the variables hold, not to the entry texts |
| RangeText.ParseFormat | main.py:185 | the `'{},{},{}'` text of any bound splits into exactly three fields that parse back to the bound |
| Controller.StartCopiesZeroUpper | main.py:67-72 | right after start-up the upper Copy text is "0,0,0", although the upper entries show the maxima |
| Controller.StartGood | main.py:64-181 | the constructed state satisfies the invariant: values in domain, labels print values, captions match the view |
| Controller.StepKeepsGood | main.py:332-481 | every handler (slider, entry edit, entry confirm, toggle, load, timer pass) preserves the invariant |
| Controller.ReplayKeepsGood | main.py:323-481 | after any sequence of events the invariant still holds |

## Left out

- Widget construction, grid layout and window geometry (main.py:15-181): no behaviour beyond initial values, which `Params.Initial` and `Controller.Start` record.
- The file dialog, its per-platform extension filters and `os.path.normpath` (main.py:226-259): the dialog's outcome is the input `Controller.Selection`.
- The generic `except Exception` branch of `load_image` (main.py:275-276): only failures inside foreign library calls reach it.
- `cv2.imread`, `cv2.cvtColor` to HSV, grey and RGB: library arithmetic with rounding, taken as given (`Controller.Converters`); the RGB channel swaps for display are not modelled.
- PIL's LANCZOS `resize` and `ImageTk.PhotoImage` (main.py:305-320): a pane records the picture and the size it is drawn at, not the resampled pixels.
- `pyperclip.copy`: only the copied text is modelled.
- The `window.after(100, ...)` loop, `mainloop` and `cleanup` (main.py:323-325, 453-469): event scheduling, modelled only as the `Ticked` event.
- The camera stubs `flip_horizontal`, `flip_vertical`, `next_cam`, `prev_cam` (main.py:193-223): their bodies do nothing.
- PyText.ParseInt: non-ASCII digits and whitespace, and the interpreter's 4300-digit limit on `int()` of a string, are not modelled.
- Params.Slide: requires the position inside the slider's range, which Tk's `Scale` guarantees; the widget's own clamping and rounding are not modelled.
