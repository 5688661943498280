# VideoPlayer core, modelled in Dafny

A model of the desktop video player's core:

- **Frame sampling.** `ExtractImages` picks about a hundred evenly spaced frames of a file. It splits that work between `split` workers, and each one emits a thumbnail per frame, tagged with the frame's place in the strip. `PreviewPosition` extracts single frames for the hover preview.
- **Thumbnail strip.** `MyThumbnailDisplay` lays the thumbnails side by side and moves a playhead line over them.
- **Throttled seek slider.** `MySlider` turns pointer movement into `showPreview` requests, at most one per 50 ms while the pointer is inside.
- **Media controls.** `MyMediaControls` has:
  - the play/pause toggle;
  - the skip buttons;
  - the volume dial;
  - the slider refresh, which must not echo a seek back to the player.
- **Player.** `MyMediaPlayer` holds the fullscreen flag, the Escape filter, and the mute branch of the volume.
- **Playlist.** `MyPlaylist` keeps rows and a current row, with previous/next navigation and "mark the file that is playing".
- **Network tree.** `MyNetworkTree` reads a media server's Browse answer into `(id, title[, url])` entries, builds the tree from them, and plays leaf items.
- **Main window.** `MainWindow` is the glue:
  - keyboard shortcuts;
  - the hover-preview popup, with its placement and `M:SS` caption;
  - the skip-button states;
  - the duration caption.

Design of the model:

- **Pure functions over immutable state.** Each widget is a datatype, and each handler is a function from the old state (plus the event) to the new state and the signals it emits.
- **Collaborators become parameters.** OpenCV's decoder is a predicate `readable: int -> bool` saying which frames read successfully. The clock is an integer number of milliseconds carried by each event. The UPnP call and its XML parse are an `Option` of the parsed children, where `None` means the call or the parse raised.
- **Python numbers.**
  - Floats are modelled as exact reals.
  - `int()` on a float truncates toward zero (`TimeText.Trunc`).
  - Python's `//` and `%` by a positive divisor agree with Dafny's.
  - Integers are unbounded in both languages.
- **Captions.** Every `M:SS` caption the player shows comes with a parser (`TimeText.ParseClock`) and a proof that the caption reads back as the time it was made from.

Details of the code that the model follows:

- `PreviewPosition.extract` does not check the frame index against the frame count. Whatever frame the decoder manages to read is returned (`ProcessTools.ExtractIgnoresFrameCount`).
- `previewDisplay` leaves the popup exactly as it was when the extraction returns `None`. Only an empty request, or the absence of an extractor, hides it.
- The throttle is strict: a move is forwarded only when MORE than 50 ms have passed since the last forwarded move or the enter.
- `browseChildren` catches every exception and returns the entries gathered before it. A damaged answer therefore yields a prefix of the entries, not an empty list (`NetworkTree.ChildrenKeep`).
- A `res` element extends the last entry in the list, whichever item that entry came from.
- As written, every shortcut raises NameError, and the Up/Down shortcuts would still raise AttributeError once that is fixed; see "## Findings".

## Model

| member | source | states |
|---|---|---|
| TimeText.Trunc | Main.py:391 | `int()` on a float lands within one unit of its argument, toward zero, on both sides of zero |
| TimeText.NatTextRoundTrip | Main.py:394-395 | the decimal text of a natural number reads back as that number |
| TimeText.IntTextRoundTrip | Main.py:394-395 | the text of any integer, minus sign included, reads back as that integer |
| TimeText.Pad2RoundTrip | Main.py:395 | the two-digit `:02d` seconds field reads back as the seconds |
| TimeText.ClockText | Main.py:394-395 | a caption is minutes, a colon and two seconds digits, with no other colon, and starts with a minus sign exactly for negative times |
| TimeText.ClockRoundTrip | Main.py:394-395 | every `M:SS` caption parses back to exactly the number of seconds it was made from, negative times included |
| TimeText.ClockTextInjective | MyMediaControls.py:193-194 | two different times never get the same caption |
| ProcessTools.FrameInterval | processTools.py:113 | the sampling interval is the least `fi` with `100 * fi >= frameCount` |
| ProcessTools.ThumbAspect | processTools.py:136-137 | the thumbnail is 80 high and `int(r*80)` wide, which keeps the frame's aspect ratio up to one pixel: `w*fH <= 80*fW < (w+1)*fH` |
| ProcessTools.ThumbOf | processTools.py:136-137 | each thumbnail is of the requested frame and 80 pixels high |
| ProcessTools.BaselineRead | processTools.py:94-115 | reading the baseline fails exactly on a zero frame height; otherwise it keeps the frame count and height, and the interval spaces 100 samples over the frames |
| ProcessTools.Range | processTools.py:158 | a positive-step `range` is empty exactly when `start >= stop`, begins at `start`, and stays in `start..stop-1` |
| ProcessTools.RangeMembership | processTools.py:158 | `range(start, stop, step)` contains exactly the values from `start` below `stop` that are a whole number of steps from `start` |
| ProcessTools.StridePositive | processTools.py:158 | the worker's step is positive exactly when the file has frames and there is at least one worker; otherwise `range` raises |
| ProcessTools.WorkerIndices | processTools.py:158 | worker `pos` has frames to visit exactly when `pos*fi` is below the frame count, and every frame it visits lies from `pos*fi` up to the frame count |
| ProcessTools.WorkerVisits | processTools.py:158 | a frame is visited by worker `pos` exactly when it is below the frame count and a whole number of strides past `pos*fi` |
| ProcessTools.WorkerIndexShape | processTools.py:158 | worker `pos` of `split` visits exactly the multiples `k*fi` below the frame count with `k mod split == pos` |
| ProcessTools.WorkersDisjoint | processTools.py:158 | no frame is visited by two different workers |
| ProcessTools.WorkersCover | processTools.py:158 | together the workers visit every multiple of the interval below the frame count, and nothing else |
| ProcessTools.SeqIndexOfVisited | processTools.py:167 | the tag `floor(i/fi)` of a visited frame `i` recovers its sample number, and it is below 100 |
| ProcessTools.RunTagProduced | processTools.py:158-167 | every tag `k` with `k*fi` below the frame count belongs to frame `k*fi`, which some worker visits |
| ProcessTools.RunTagBound | processTools.py:158-167 | every tag a worker produces has `k*fi` below the frame count, so the tags of a run are exactly `0..ceil(count/fi)-1` |
| ProcessTools.RunTagEmitted | processTools.py:158-167 | when every frame reads, each tag `k` with `k*fi` below the frame count is emitted by some worker, as the thumbnail of frame `k*fi` |
| ProcessTools.ThreeThousandFrames | processTools.py:113 | for a readable 3000-frame file the interval is 30 and the workers emit the thumbnail of frame `30*k` with tag `k` for every `k` in 0..99 |
| ProcessTools.ReadablePrefix | processTools.py:160-165 | the frames a worker emits form a prefix of its indices, all readable, and the next index (if any) is not |
| ProcessTools.ReadablePrefixUnique | processTools.py:160-165 | any prefix with that property is the one the worker emits |
| ProcessTools.ReelImages | processTools.py:167 | one `reelImage` per emitted frame, in order, each carrying that frame's thumbnail and tag |
| ProcessTools.Emitted | processTools.py:158-167 | a worker emits at most one image per frame it visits |
| ProcessTools.RunWorker | processTools.py:139-172 | the run raises exactly on a zero frame height or a zero step; otherwise it emits the thumbnails of the readable prefix of its indices, then `finished` and `over(pos)` |
| ProcessTools.WorkerStopsAtFirstFailure | processTools.py:158-172 | every emitted image is of the visited frame, readable, 80 high and tagged below 100; the worker stops at the first unreadable frame; these are exactly the images the run emits before its done signals |
| ProcessTools.OpenPreview | processTools.py:189-205 | opening a preview extractor fails exactly on a zero frame height and otherwise records the file's frame count and size |
| ProcessTools.Extract | processTools.py:207-233 | `extract(n)` seeks to `n` and returns an image exactly when frame `n` reads, 80 high and of frame `n` |
| ProcessTools.ExtractIgnoresFrameCount | processTools.py:220 | the frame count plays no part in `extract`: an index past the end is not rejected |
| ProcessTools.PreviewMatchesStrip | processTools.py:232 | a preview image has the same size as the strip thumbnail of the same frame |
| ProcessTools.ExtractSquareFrame | testBench/test_thumbnail.py:23-29 | for a readable 100x100 file, `extract(50)` seeks to 50 and returns an 80x80 image |
| Slider.Step | MySlider.py:77-126 | enter marks the slider inside, restarts the throttle and announces the preview; leave marks it outside and sends exit then hide; a move emits one request exactly when inside and more than 50 ms after the last stamp, carrying the pointer's global position and the media time under it; the new stamp is the clock read after the request was delivered; otherwise nothing changes |
| Slider.Run | MySlider.py:77-126 | a run of events keeps the slider's size and duration; moves alone keep its inside flag, and any enter or leave emits something |
| Slider.SlowSlotExample | MySlider.py:93-99 | when the preview slot takes 30 ms, a move 70 ms after the first request is dropped, because the throttle counts from the end of that slot |
| Slider.MovesEmitRequests | MySlider.py:93-99 | over a run of moves the slider emits one request per move that passes the throttle, in order, and keeps its inside flag |
| Slider.ThrottleSpacing | MySlider.py:93-99 | forwarded moves are each more than 50 ms after the previous one (the first after the stamp), are drawn from the moves, and an outside slider forwards none |
| Slider.SpacedSpan | MySlider.py:93-99 | `n` spaced requests end at least `51*n` ms after the stamp |
| Slider.HoverRateLimit | MySlider.py:93-99 | within `span` ms of the stamp at most `span / 51` requests are forwarded, however many moves arrive |
| Slider.HoverSession | MySlider.py:102-126 | enter, moves, leave emit the enter notice, the throttled requests, the exit notice and exactly one hide, which is the last signal; the slider ends outside |
| Slider.OutsideIgnoresMoves | MySlider.py:52 | after leave, and on a freshly built slider, moves produce no request |
| Slider.TargetWithinMedia | MySlider.py:90 | a pointer inside the widget asks for a time between 0 and the duration |
| Slider.TargetExamples | testBench/test_slider.py:85-86 | at the middle of a 100-pixel, 100-second slider the request is for 50000 ms |
| MediaPlayer.Fresh | MyMediaPlayer.py:59 | a new player is windowed |
| MediaPlayer.ToggleFullScreen | MyMediaPlayer.py:144-162 | toggling flips the fullscreen state and leaves the audio alone |
| MediaPlayer.ToggleTwice | MyMediaPlayer.py:144-162 | toggling twice restores the player |
| MediaPlayer.AdjustVolume | MyMediaPlayer.py:119-139 | the output is muted exactly when the volume is not positive, and otherwise set from that volume |
| MediaPlayer.EventFilter | MyMediaPlayer.py:173-195 | the filter consumes an event exactly when it is Escape in fullscreen, and then leaves fullscreen; it never enters fullscreen |
| MediaPlayer.OtherEventsPass | testBench/test_mediaplayer_event.py:37-56 | any event other than Escape passes through unconsumed and changes nothing |
| MediaControls.SliderSeeksOnce | MyMediaControls.py:191-192 | a blocked slider moves without asking for a seek, and setting the same value twice asks at most once |
| MediaControls.UpdateSlider | MyMediaControls.py:186-195 | following the player's position moves the slider without emitting a seek, leaves it unblocked, and labels it with the whole seconds of the position |
| MediaControls.UpdateSliderSeconds | MyMediaControls.py:193-194 | for a non-negative position the label reads `position // 1000` seconds |
| MediaControls.PlayPauseChange | MyMediaControls.py:118-134 | a checked button asks to play and an unchecked one to pause, exactly one request each time |
| MediaControls.ClickPlay | MyMediaControls.py:80-84 | a click flips the checkable button and reports the new state |
| MediaControls.ClickPlayTwice | MyMediaControls.py:80-84 | two clicks restore the button, with one play and one pause request between them |
| MediaControls.SetDialValue | MyMediaControls.py:98-100 | the dial holds a value in 0..100, clamping values outside, and reports a change to the volume exactly when the held value changes |
| Playlist.Empty | MyPlaylist.py:57-68 | a new playlist has no rows and no current row |
| Playlist.DisplayName | MyPlaylist.py:80 | the shown name is the longest `/`-free tail of the path |
| Playlist.DisplayNameOfJoin | MyPlaylist.py:80 | a file `name` in any directory is shown as `name` |
| Playlist.AddItem | MyPlaylist.py:69-84 | adding appends one row holding the path and shown by its last `/`-separated part, and changes neither the other rows nor the current row |
| Playlist.AddFileShowsName | MyPlaylist.py:80-84 | a file `name` added from any directory gets a row that shows `name` and keeps the whole path |
| Playlist.SelectRow | MyPlaylist.py:112-123 | selecting a row in range makes it current, and any other row clears the selection |
| Playlist.SetPrev | MyPlaylist.py:112-123 | Prev moves one row up; from the first row, or with no row current, nothing is current |
| Playlist.SetNext | MyPlaylist.py:129-140 | Next moves one row down; past the last row nothing is current; with no row current, it starts at the first row |
| Playlist.PrevNextInverse | MyPlaylist.py:112-140 | away from the ends, Next undoes Prev and Prev undoes Next |
| Playlist.NextWalk | MyPlaylist.py:129-140 | repeated Next from no current row visits the rows in order |
| Playlist.SetActiveItem | MyPlaylist.py:90-106 | the first row holding the path becomes current; if no row holds it, nothing changes |
| ThumbnailDisplay.ClearDisplay | MyThumbnailDisplay.py:50-63 | clearing resets the count, width and duration and empties the scene |
| ThumbnailDisplay.AddImage | MyThumbnailDisplay.py:65-84 | each image adds one pixmap at `pos` image widths, increments the count, and sets the strip width to 100 images |
| ThumbnailDisplay.SetDuration | MyThumbnailDisplay.py:86-101 | the duration is kept in milliseconds and a new playhead line starts at the left edge |
| ThumbnailDisplay.SetPosition | MyThumbnailDisplay.py:103-121 | with a duration, the playhead and view centre go to the fraction `pos/duration` of the strip; without one, nothing changes |
| ThumbnailDisplay.PlayheadEnds | MyThumbnailDisplay.py:103-121 | the playhead is at the left edge at time 0 and at the right edge at the end |
| ThumbnailDisplay.AddAllShape | MyThumbnailDisplay.py:65-84 | a run of arrivals adds one pixmap per image, in arrival order, and counts them |
| ThumbnailDisplay.ArrivalOrderIrrelevant | MyThumbnailDisplay.py:65-84 | whatever order the worker threads deliver images in, the strip ends with the same pixmaps at the same places and the same count |
| ThumbnailDisplay.DistinctSamplesApart | MyThumbnailDisplay.py:80 | images of distinct samples never overlap in the strip |
| NetworkTree.SpecStep | MyNetworkTree.py:67-72 | a title appends `(id, text)`, or raises on an item without attributes; a res extends the last entry with its text, or raises on an empty list; a spec that is both does both; any other spec changes nothing |
| NetworkTree.ChildrenKeep | MyNetworkTree.py:64-75 | walking the answer only ever appends entries or extends the last one, exception or not |
| NetworkTree.BrowseChildren | MyNetworkTree.py:32-76 | a failed call yields no entries, and every returned entry has at least an id and a title |
| NetworkTree.WellFormedItem | MyNetworkTree.py:64-72 | a well-formed item contributes exactly its own entry: id, title, then its urls |
| NetworkTree.WellFormedAnswer | MyNetworkTree.py:64-76 | a well-formed answer raises nothing and yields one entry per item, in order |
| NetworkTree.ResBeforeTitle | MyNetworkTree.py:70-75 | a res with no entry before it raises, and the answer reads as empty |
| NetworkTree.AddParentItem | MyNetworkTree.py:129-140 | a device is browsed from object id `"0"` and is its own path |
| NetworkTree.AddChildItem | MyNetworkTree.py:143-158 | a child hangs under its parent, and its path extends the parent's path |
| NetworkTree.GetParent | MyNetworkTree.py:160-179 | climbing to the top prepends exactly the item's path to the accumulator, and leaves it alone when there is no item |
| NetworkTree.UsableEntries | MyNetworkTree.py:204-211 | the entries the loop acts on are exactly those of length 2 or 3, and all of them when every entry has that length |
| NetworkTree.UsableEntriesAppend | MyNetworkTree.py:204-211 | the entries acted on in two runs of entries are those of the first run followed by those of the second |
| NetworkTree.AddChildren | MyNetworkTree.py:202-211 | one child per entry of length 2 or 3, in the order of the entries, each built from its entry; nothing else is added |
| NetworkTree.ItemClicked | MyNetworkTree.py:181-218 | an expanded item does nothing; an unexpanded one gets exactly the children the loop adds, each under it and playable exactly when listed with a url; it is played exactly when the answer is empty, and nothing is played otherwise |
| NetworkTree.ExpandWellFormed | MyNetworkTree.py:181-211 | expanding a container with a well-formed answer adds a child for each listed item that has at most one url |
| MainWindow.KeyPress | Main.py:85-104 | F flips fullscreen; Escape leaves it; Space clicks play; Left/Right seek by 5 s; Up/Down step the volume by 10 within 0..100; no other state changes |
| MainWindow.KeyPressAsWritten | Main.py:85-104 | as written, every key raises NameError on the unbound name `PyQt6` |
| MainWindow.KeysFailAsWritten | Main.py:85-104 | as written no key does anything, although the intended F always changes the window |
| MainWindow.KeyPressWithImport | Main.py:85-104 | with `PyQt6.QtCore` imported, Up and Down raise AttributeError and every other key acts as intended |
| MainWindow.ImportRestoresShortcuts | Main.py:85-98 | the import alone restores every shortcut except the volume keys |
| MainWindow.VolumeKeysFailAsWritten | Main.py:99-103 | even with the import, the volume keys fail on every window, although the intended Up raises the volume whenever it is below 100 |
| MainWindow.VolumeStaysInRange | Main.py:99-103 | under any key sequence the volume stays in 0..100 and the audio level matches it |
| MainWindow.ShortcutInverses | Main.py:93-103 | Down undoes Up below the top of the range, and Left undoes Right |
| MainWindow.FullScreenTwice | Main.py:85-87 | two presses of F restore the window |
| MainWindow.FrameAt | Main.py:329 | the frame asked for is the frame time `ms/1000*fr` cut toward zero to a whole number |
| MainWindow.Placement | Main.py:333-340 | the popup keeps its size, sits ten pixels above the pointer, and is centred on it to within a pixel |
| MainWindow.FloatClock | Main.py:341-342 | `int(s//60)` and `int(s%60)` of a float are the minutes and seconds of the whole seconds below `s` |
| MainWindow.PreviewCaption | Main.py:341-342 | the preview caption reads back as the whole seconds below the hovered time |
| MainWindow.PreviewDisplay | Main.py:327-346 | an empty request or no extractor hides the popup; an unreadable frame leaves it as it was; a readable one shows exactly that frame's thumbnail, centred ten pixels above the pointer, with its time; the popup's size never changes |
| MainWindow.LatestHoverWins | Main.py:327-346 | once a requested frame reads, the popup is the same whatever earlier requests did to it |
| MainWindow.PreviewFrameWithinDuration | Main.py:329 | hovering inside the slider asks for a frame between 0 and `int(duration * fps)` |
| MainWindow.Buttons | Main.py:254-264 | with a current row, each skip button is enabled exactly when its skip lands on a row; with none, Prev is enabled and Next is enabled exactly when the list has rows |
| MainWindow.Route | Main.py:231-232 | routing the panel's signals to the playlist never changes its rows or breaks its validity |
| MainWindow.SkipButtonsNavigate | Main.py:231-232 | a click on Prev or Next runs the playlist's `setPrev` or `setNext`, and an enabled button moves to the neighbouring row |
| MainWindow.ManageControl | Main.py:254-266 | with no current row the slot raises; otherwise the row's file is loaded and, if the extractor fails to open, the slot raises; else the new extractor is kept and the first row with that path becomes current (`__playFile`, Main.py lines 415-419). If that row is the current one, one play request is sent; if it is an earlier row, the changed selection runs the slot again on it, so the file is loaded twice, two play requests are sent, and the buttons end up following the earlier row |
| MainWindow.DuplicatePathExample | Main.py:254-266 | with rows `a/x.mp4`, `b/y.mp4`, `a/x.mp4` and the last one current, row 0 ends current, Prev is disabled, Next enabled, and play is requested twice |
| MainWindow.ReelContent | Main.py:386-395 | the duration is cut to whole seconds, given to the slider, and captioned with a text that reads back as that duration |

## Left out

- Video decoding (OpenCV), Qt widgets, painting, layouts and icons are left out. Their visible effect is modelled as data: the frames that read, the pixmaps placed, the popup's rectangle and caption.
- Worker threads and their scheduling are left out. The strip's result is shown to be independent of arrival order (`ThumbnailDisplay.ArrivalOrderIrrelevant`); the threads themselves are not modelled.
- `checkDuration` and the ffmpeg probe are not modelled. The probed duration and frame rate enter as parameters.
- The logarithm `log(v)/log(100)` in `adjustVolume` is not computed. The level records the linear volume it is computed from.
- The Browse call, the XML parser, namespaces and `"Result"` lookup are left out. The answer is given as parsed children, or `None` when any of them raised.
- A `spec.text` of `None` (an empty element) is not modelled: texts are strings.
- The `print` in `__itemClicked` is output only and is left out.
- `MyPreview`, `MyVolumeControl`, the selection line, the dialogs, settings storage and the widget reparenting done by `toggleFullScreen` in the main window are not part of this model.
- Network playback (`playNetworkURL`), the stop button, media-status reflection and the seek slider's maximum are left out. They forward values to Qt without logic of their own.
- ThumbnailDisplay.SetPosition: the `round(pos/duration, 6)` is taken as exact. The playhead fraction is exact rather than rounded to six decimals.
- Slider.Step: a slider of width 0 is excluded by `requires`. `mouseMoveEvent` raises ZeroDivisionError there before anything else happens.
- ProcessTools.BaselineRead: the frame count is taken as a natural number. OpenCV's `int(get(CAP_PROP_FRAME_COUNT))` at processTools.py:106 can be negative for some streams; `range` would then visit nothing and the model does not cover it.
- MediaControls.SetSliderValue: the seek slider's own range clamp is not applied. The value is recorded as given.
- MainWindow.KeyPress: the player's clamp of a seek to `0..duration` is not applied. The position changes by exactly 5000 ms.
- MediaPlayer.Fresh: the initial volume of 100 stands for the audio output's default. The Python class keeps no volume at all (see "## Findings").
- Playlist.SelectRow: an out-of-range `setCurrentItem(None)` is taken to clear the current row to -1, as the list widget does.
- MainWindow.ManageControl: an exception that escapes the slot is returned as a failure. What PyQt does next (it aborts the application) is not modelled.
- NetworkTree.ItemClicked: emitting `None` when a top-level device with no address has no children is kept as the emitted value. The model does not decide what the receiving slot does with it.

## Findings

| source | as written | input that shows it | evidently intended | confidence | as-written member | corrected member |
|---|---|---|---|---|---|---|
| Main.py:85-104 | `keyPressEvent` refers to `PyQt6.QtCore`, but the module only does `from PyQt6.X import Y`, so the name `PyQt6` is unbound and every key raises NameError (the constructor's timer at line 79 does too) | pressing F in the main window | bind the name with `import PyQt6.QtCore`, as the slider and player modules do, so that each shortcut works | not executed | MainWindow.KeysFailAsWritten | MainWindow.ImportRestoresShortcuts |
| Main.py:99-103 | even with that import, the Up and Down shortcuts read `self.mediaPlayer.volume`, which `MyMediaPlayer` never assigns, so they raise AttributeError and the volume never changes | pressing Up (or Down) in the main window, whatever the volume | step the last set volume by 10 within 0..100 and pass it to `adjustVolume` | not executed | MainWindow.VolumeKeysFailAsWritten | MainWindow.VolumeStaysInRange |
