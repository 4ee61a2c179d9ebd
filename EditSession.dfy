/** The edit session of the main window as a state machine on values.

    A session holds three images (the last loaded or saved `cleanMat`, the
    committed base `originalMat`, the shown `displayMat`), a linear undo
    history with its cursor, the live slider parameters and the crop-mode
    flag. Each function below is one handler of the window; the class
    `Viewer.MainWindow` is proved to update its fields exactly as these
    functions say. */
module EditSession {
  import opened ImageUtils

  // ----- live parameters -----

  datatype Slider = Brightness | Contrast | Saturation | Blur

  /** The four slider positions and the grayscale flag. Contrast is the gain in tenths. */
  datatype Params = Params(brightness: int, contrast: int, saturation: int, blur: int, isGrayscale: bool)

  /** The neutral positions `resetSlidersToDefaults` restores. */
  const Defaults: Params := Params(0, 10, 0, 0, false)

  function SliderMin(w: Slider): int
  {
    match w
    case Brightness => -100
    case Contrast => 0
    case Saturation => -100
    case Blur => 0
  }

  function SliderMax(w: Slider): int
  {
    match w
    case Brightness => 100
    case Contrast => 30
    case Saturation => 100
    case Blur => 10
  }

  function SliderValue(p: Params, w: Slider): int
  {
    match w
    case Brightness => p.brightness
    case Contrast => p.contrast
    case Saturation => p.saturation
    case Blur => p.blur
  }

  function WithSlider(p: Params, w: Slider, v: int): (q: Params)
    ensures SliderValue(q, w) == v && q.isGrayscale == p.isGrayscale
    ensures forall u :: u != w ==> SliderValue(q, u) == SliderValue(p, u)
  {
    match w
    case Brightness => p.(brightness := v)
    case Contrast => p.(contrast := v)
    case Saturation => p.(saturation := v)
    case Blur => p.(blur := v)
  }

  /** A slider's value bounded to its range, as the widget does. */
  function Clamp(v: int, lo: int, hi: int): (r: int)
    requires lo <= hi
    ensures lo <= r <= hi
    ensures lo <= v <= hi ==> r == v
    ensures r == lo || r == hi || r == v
  {
    if v < lo then lo else if v > hi then hi else v
  }

  predicate InRange(p: Params)
  {
    SliderMin(Brightness) <= p.brightness <= SliderMax(Brightness) &&
    SliderMin(Contrast) <= p.contrast <= SliderMax(Contrast) &&
    SliderMin(Saturation) <= p.saturation <= SliderMax(Saturation) &&
    SliderMin(Blur) <= p.blur <= SliderMax(Blur)
  }

  // ----- the recompute pipeline -----

  /** Every stage is at its neutral value. */
  predicate Neutral(p: Params)
  {
    p.saturation == 0 && p.contrast == 10 && p.brightness == 0 && p.blur <= 0 && !p.isGrayscale
  }

  /** The body of `onSliderChanged`: saturation, then brightness and contrast,
      then blur, then grayscale, each stage only when its parameter is not
      neutral. A contrast gain of value/10 differs from 1.0 exactly when the
      value differs from 10. */
  function Pipeline(base: Mat, p: Params, ops: PixelOps): (r: Mat)
    ensures Neutral(p) ==> r == base
    ensures r.rows == base.rows && r.cols == base.cols
    ensures r.IsEmpty() <==> base.IsEmpty()
    ensures base.typ == CV_8UC3 ==> r.typ == CV_8UC3
  {
    var afterSaturation := if p.saturation != 0 then AdjustSaturation(base, p.saturation, ops) else base;
    var afterContrast :=
      if p.contrast != 10 || p.brightness != 0
      then AdjustBrightnessContrast(afterSaturation, p.contrast, p.brightness, ops)
      else afterSaturation;
    var afterBlur := if p.blur > 0 then ApplyBlur(afterContrast, p.blur, ops) else afterContrast;
    if p.isGrayscale then ToGrayscale(afterBlur, ops) else afterBlur
  }

  /** What the display shows for a base: the pipeline, or the base itself
      when it is empty (the handler returns early then). */
  function Render(base: Mat, p: Params, ops: PixelOps): (r: Mat)
    ensures Neutral(p) ==> r == base
    ensures r.IsEmpty() <==> base.IsEmpty()
  {
    if base.IsEmpty() then base else Pipeline(base, p, ops)
  }

  // ----- sessions -----

  datatype Session = Session(
    cleanMat: Mat,
    originalMat: Mat,
    displayMat: Mat,
    undoHistory: seq<Mat>,
    undoIndex: int,
    params: Params,
    cropMode: bool)

  /** The state the window's constructor leaves. */
  const Initial: Session := Session(EmptyMat, EmptyMat, EmptyMat, [], -1, Defaults, false)

  /** The cursor is -1 on an empty history and a valid position otherwise. */
  predicate HistoryValid(s: Session)
  {
    -1 <= s.undoIndex < |s.undoHistory| && (s.undoIndex == -1 <==> |s.undoHistory| == 0)
  }

  /** The invariant every handler keeps: a valid cursor, sliders in range,
      grayscale off between handlers, and a display derived from the base
      and the live parameters. */
  predicate Valid(s: Session, ops: PixelOps)
  {
    HistoryValid(s) && InRange(s.params) && !s.params.isGrayscale &&
    s.displayMat == Render(s.originalMat, s.params, ops)
  }

  /** The history entry under the cursor is the base. */
  predicate Synced(s: Session)
  {
    0 <= s.undoIndex < |s.undoHistory| && s.undoHistory[s.undoIndex] == s.originalMat
  }

  predicate CanUndo(s: Session) { s.undoIndex > 0 }

  predicate CanRedo(s: Session) { s.undoIndex < |s.undoHistory| - 1 }

  /** `r` is `s` after one commit: the redo suffix is dropped, `recorded` is
      appended at the new cursor, `installed` becomes base and display, and
      the sliders are neutral. */
  ghost predicate CommitOf(s: Session, r: Session, recorded: Mat, installed: Mat)
  {
    HistoryValid(s) &&
    r.undoHistory == s.undoHistory[..s.undoIndex + 1] + [recorded] &&
    r.undoIndex == s.undoIndex + 1 &&
    r.originalMat == installed && r.displayMat == installed &&
    r.params == Defaults && r.cleanMat == s.cleanMat
  }

  lemma InitialValid(ops: PixelOps)
    ensures Valid(Initial, ops) && !CanUndo(Initial) && !CanRedo(Initial)
  {
  }

  // ----- handlers -----

  /** `onSliderChanged`: recomputes the display from the base; nothing happens
      while the base is empty. Only the display changes. */
  function OnSliderChanged(s: Session, ops: PixelOps): (r: Session)
    ensures r.(displayMat := s.displayMat) == s
    ensures s.originalMat.IsEmpty() ==> r == s
    ensures !s.originalMat.IsEmpty() ==> r.displayMat == Render(r.originalMat, r.params, ops)
  {
    if s.originalMat.IsEmpty() then s
    else s.(displayMat := Pipeline(s.originalMat, s.params, ops))
  }

  function ResetSlidersToDefaults(s: Session): (r: Session)
    ensures r.params == Defaults && r.(params := s.params) == s
  {
    s.(params := Defaults)
  }

  /** `pushUndoState`: drops the redo suffix, appends the display, makes it
      the base and resets the sliders (without a recompute). */
  function PushUndoState(s: Session): (r: Session)
    requires HistoryValid(s)
    ensures CommitOf(s, r, s.displayMat, s.displayMat) && r.cropMode == s.cropMode
    ensures r.undoHistory[..s.undoIndex + 1] == s.undoHistory[..s.undoIndex + 1]
    ensures HistoryValid(r) && Synced(r) && !CanRedo(r)
  {
    var history :=
      if s.undoIndex < |s.undoHistory| - 1 then s.undoHistory[..s.undoIndex + 1] else s.undoHistory;
    assert s.undoHistory[..|s.undoHistory|] == s.undoHistory;
    ResetSlidersToDefaults(s.(undoHistory := history + [s.displayMat],
                              undoIndex := s.undoIndex + 1,
                              originalMat := s.displayMat))
  }

  lemma PushUndoStateValid(s: Session, ops: PixelOps)
    requires Valid(s, ops)
    ensures Valid(PushUndoState(s), ops)
  {
  }

  /** `performUndo`: at a cursor above 0, steps back and restores that entry
      as base and display with neutral sliders; otherwise nothing changes.
      The history is never modified. */
  function PerformUndo(s: Session, ops: PixelOps): (r: Session)
    requires HistoryValid(s)
    ensures r.undoHistory == s.undoHistory && r.cleanMat == s.cleanMat && r.cropMode == s.cropMode
    ensures !CanUndo(s) ==> r == s
    ensures CanUndo(s) ==>
      r.undoIndex == s.undoIndex - 1 && Synced(r) &&
      r.originalMat == s.undoHistory[s.undoIndex - 1] && r.displayMat == r.originalMat &&
      r.params == Defaults
    ensures HistoryValid(r)
    ensures Valid(s, ops) ==> Valid(r, ops)
  {
    if s.undoIndex > 0 then
      var i := s.undoIndex - 1;
      var restored := s.(undoIndex := i, originalMat := s.undoHistory[i], displayMat := s.undoHistory[i]);
      OnSliderChanged(ResetSlidersToDefaults(restored), ops)
    else s
  }

  /** `performRedo`: below the last position, steps forward and restores that
      entry; otherwise nothing changes. The history is never modified. */
  function PerformRedo(s: Session, ops: PixelOps): (r: Session)
    requires HistoryValid(s)
    ensures r.undoHistory == s.undoHistory && r.cleanMat == s.cleanMat && r.cropMode == s.cropMode
    ensures !CanRedo(s) ==> r == s
    ensures CanRedo(s) ==>
      r.undoIndex == s.undoIndex + 1 && Synced(r) &&
      r.originalMat == s.undoHistory[s.undoIndex + 1] && r.displayMat == r.originalMat &&
      r.params == Defaults
    ensures HistoryValid(r)
    ensures Valid(s, ops) ==> Valid(r, ops)
  {
    if s.undoIndex < |s.undoHistory| - 1 then
      var i := s.undoIndex + 1;
      var restored := s.(undoIndex := i, originalMat := s.undoHistory[i], displayMat := s.undoHistory[i]);
      OnSliderChanged(ResetSlidersToDefaults(restored), ops)
    else s
  }

  /** `resetEdits`: with a loaded clean image, the history restarts from it;
      with an empty clean image nothing happens. */
  function ResetEdits(s: Session, ops: PixelOps): (r: Session)
    ensures s.cleanMat.IsEmpty() ==> r == s
    ensures !s.cleanMat.IsEmpty() ==>
      r.undoHistory == [s.cleanMat] && r.undoIndex == 0 &&
      r.originalMat == s.cleanMat && r.displayMat == s.cleanMat && r.cleanMat == s.cleanMat &&
      r.params == Defaults && r.cropMode == s.cropMode
    ensures HistoryValid(s) ==> HistoryValid(r)
    ensures Valid(s, ops) ==> Valid(r, ops)
  {
    if s.cleanMat.IsEmpty() then s
    else
      var restarted := s.(undoHistory := [s.cleanMat], originalMat := s.cleanMat, undoIndex := 0);
      OnSliderChanged(ResetSlidersToDefaults(restarted), ops)
  }

  /** `loadImage` given what the decoder returned: the result always replaces
      the clean image; an empty result stops there, leaving the history, the
      base and the display as they were; otherwise the session restarts from it. */
  function LoadImage(s: Session, decoded: Mat, ops: PixelOps): (r: Session)
    ensures decoded.IsEmpty() ==> r == s.(cleanMat := decoded)
    ensures !decoded.IsEmpty() ==>
      r.undoHistory == [decoded] && r.undoIndex == 0 &&
      r.cleanMat == decoded && r.originalMat == decoded && r.displayMat == decoded &&
      r.params == Defaults && r.cropMode == s.cropMode
    ensures HistoryValid(s) ==> HistoryValid(r)
    ensures Valid(s, ops) ==> Valid(r, ops)
  {
    var loaded := s.(cleanMat := decoded);
    if decoded.IsEmpty() then loaded
    else
      var restarted := loaded.(undoHistory := [decoded], originalMat := decoded, undoIndex := 0);
      ResetEdits(restarted, ops)
  }

  /** A call of the encoder: which file and which image, or none. */
  datatype ImageWrite = NoWrite | Write(path: string, image: Mat)

  /** The write `saveFile` attempts: the display, to the scanner's current
      path, unless the display is empty or there is no current path. */
  function SaveFileWrite(s: Session, currentPath: string): (w: ImageWrite)
    ensures w.Write? <==> !s.displayMat.IsEmpty() && currentPath != ""
    ensures w.Write? ==> w.path == currentPath && w.image == s.displayMat
  {
    if s.displayMat.IsEmpty() || currentPath == "" then NoWrite else Write(currentPath, s.displayMat)
  }

  /** `saveFile`: a successful write makes the display the new clean image;
      nothing else ever changes. */
  function SaveFile(s: Session, currentPath: string, writeOk: bool): (r: Session)
    ensures r.(cleanMat := s.cleanMat) == s
    ensures r.cleanMat == if SaveFileWrite(s, currentPath).Write? && writeOk then s.displayMat else s.cleanMat
  {
    if s.displayMat.IsEmpty() || currentPath == "" then s
    else if writeOk then s.(cleanMat := s.displayMat)
    else s
  }

  /** The invariant does not constrain the clean image. */
  lemma ValidIgnoresClean(s: Session, clean: Mat, ops: PixelOps)
    requires Valid(s, ops)
    ensures Valid(s.(cleanMat := clean), ops)
  {
  }

  /** The write `saveAsFile` attempts: the display, to the chosen file, unless
      the display is empty or the dialog was cancelled. It changes no state. */
  function SaveAsFileWrite(s: Session, filename: string): (w: ImageWrite)
    ensures w.Write? <==> !s.displayMat.IsEmpty() && filename != ""
    ensures w.Write? ==> w.path == filename && w.image == s.displayMat
  {
    if s.displayMat.IsEmpty() then NoWrite
    else if filename != "" then Write(filename, s.displayMat)
    else NoWrite
  }

  /** A slider moved to `v`: the widget bounds the value to its range and,
      when the value changed, `onSliderChanged` recomputes the display. The
      history, the base and the clean image are untouched. */
  function SetSliderValue(s: Session, w: Slider, v: int, ops: PixelOps): (r: Session)
    ensures r.undoHistory == s.undoHistory && r.undoIndex == s.undoIndex
    ensures r.originalMat == s.originalMat && r.cleanMat == s.cleanMat && r.cropMode == s.cropMode
    ensures SliderValue(r.params, w) == Clamp(v, SliderMin(w), SliderMax(w))
    ensures forall u :: u != w ==> SliderValue(r.params, u) == SliderValue(s.params, u)
    ensures r.params.isGrayscale == s.params.isGrayscale
    ensures Valid(s, ops) ==> Valid(r, ops)
  {
    var c := Clamp(v, SliderMin(w), SliderMax(w));
    if c == SliderValue(s.params, w) then s
    else OnSliderChanged(s.(params := WithSlider(s.params, w, c)), ops)
  }

  /** The tail of `rotateRight`, `applySharpen` and the crop branch: the
      edited image becomes base and display, and the display is recomputed. */
  function ReplaceBase(s: Session, edited: Mat, ops: PixelOps): (r: Session)
    requires s.params == Defaults
    ensures r == s.(originalMat := edited, displayMat := edited)
  {
    OnSliderChanged(s.(originalMat := edited, displayMat := edited), ops)
  }

  /** `rotateRight`: with a base loaded, commits the current display and then
      rotates the new base, so the history records the image before the
      rotation. */
  function RotateRight(s: Session, ops: PixelOps): (r: Session)
    requires HistoryValid(s)
    ensures s.originalMat.IsEmpty() ==> r == s
    ensures !s.originalMat.IsEmpty() ==>
      CommitOf(s, r, s.displayMat, Rotate90(s.displayMat, ops)) && r.cropMode == s.cropMode
    ensures HistoryValid(r)
    ensures Valid(s, ops) ==> Valid(r, ops)
  {
    if s.originalMat.IsEmpty() then s
    else
      var pushed := PushUndoState(s);
      ReplaceBase(pushed, Rotate90(pushed.originalMat, ops), ops)
  }

  /** `applySharpen`: as `rotateRight`, with the sharpening filter. */
  function ApplySharpen(s: Session, ops: PixelOps): (r: Session)
    requires HistoryValid(s)
    ensures s.originalMat.IsEmpty() ==> r == s
    ensures !s.originalMat.IsEmpty() ==>
      CommitOf(s, r, s.displayMat, Sharpen(s.displayMat, ops)) && r.cropMode == s.cropMode
    ensures HistoryValid(r)
    ensures Valid(s, ops) ==> Valid(r, ops)
  {
    if s.originalMat.IsEmpty() then s
    else
      var pushed := PushUndoState(s);
      ReplaceBase(pushed, Sharpen(pushed.originalMat, ops), ops)
  }

  /** `toggleGrayscale`: flips the flag and recomputes; when the flag is now on
      it commits, which turns it off again. From the rest state (flag off)
      every call commits the grayscale rendering. */
  function ToggleGrayscale(s: Session, ops: PixelOps): (r: Session)
    requires HistoryValid(s)
    ensures !r.params.isGrayscale && HistoryValid(r) && r.cropMode == s.cropMode
    ensures s.params.isGrayscale ==> r.undoHistory == s.undoHistory && r.undoIndex == s.undoIndex
    ensures Valid(s, ops) ==>
      var gray := Render(s.originalMat, s.params.(isGrayscale := true), ops);
      CommitOf(s, r, gray, gray)
    ensures Valid(s, ops) ==> Valid(r, ops)
  {
    var flipped := OnSliderChanged(s.(params := s.params.(isGrayscale := !s.params.isGrayscale)), ops);
    if flipped.params.isGrayscale then PushUndoState(flipped) else flipped
  }

  /** `toggleCropMode`: only the flag changes. */
  function ToggleCropMode(s: Session): (r: Session)
    ensures r.cropMode == !s.cropMode && r.(cropMode := s.cropMode) == s
  {
    s.(cropMode := !s.cropMode)
  }

  /** The crop branch of `eventFilter` on a mouse release, with the selection
      already mapped to image coordinates. Outside crop mode the event is
      passed on and nothing changes. In crop mode a selection wider and taller
      than 10 pixels commits the display and crops the new base (there is no
      check for an empty base here); crop mode ends either way. */
  function CropRelease(s: Session, rect: Rect, ops: PixelOps): (r: Session)
    requires HistoryValid(s)
    ensures !s.cropMode ==> r == s
    ensures s.cropMode ==> !r.cropMode
    ensures s.cropMode && rect.width > 10 && rect.height > 10 ==>
      CommitOf(s, r, s.displayMat, Crop(s.displayMat, rect, ops))
    ensures s.cropMode && !(rect.width > 10 && rect.height > 10) ==> r == s.(cropMode := false)
    ensures HistoryValid(r)
    ensures Valid(s, ops) ==> Valid(r, ops)
  {
    if !s.cropMode then s
    else
      var cropped :=
        if rect.width > 10 && rect.height > 10 then
          var pushed := PushUndoState(s);
          ReplaceBase(pushed, Crop(pushed.originalMat, rect, ops), ops)
        else s;
      ToggleCropMode(cropped)
  }

  // ----- history properties -----

  /** Undo right after a commit from a synced state restores the base and the
      cursor from before the commit. */
  lemma UndoAfterCommit(s: Session, r: Session, recorded: Mat, installed: Mat, ops: PixelOps)
    requires Synced(s) && CommitOf(s, r, recorded, installed)
    ensures PerformUndo(r, ops).originalMat == s.originalMat
    ensures PerformUndo(r, ops).undoIndex == s.undoIndex
  {
    assert r.undoHistory[s.undoIndex] == s.undoHistory[s.undoIndex];
  }

  /** Redo right after that undo brings back what the commit recorded, which
      is the image it installed only when the two are the same. */
  lemma RedoAfterUndoAfterCommit(s: Session, r: Session, recorded: Mat, installed: Mat, ops: PixelOps)
    requires s.undoIndex >= 0 && CommitOf(s, r, recorded, installed)
    ensures PerformRedo(PerformUndo(r, ops), ops).originalMat == recorded
    ensures PerformRedo(PerformUndo(r, ops), ops).undoIndex == r.undoIndex
    ensures PerformRedo(PerformUndo(r, ops), ops).originalMat == installed <==> recorded == installed
  {
    var u := PerformUndo(r, ops);
    assert u.undoIndex < |u.undoHistory| - 1;
    assert r.undoHistory[r.undoIndex] == recorded;
  }

  /** From a synced state with neutral sliders, undo then redo is the identity. */
  lemma UndoThenRedo(s: Session, ops: PixelOps)
    requires Valid(s, ops) && Synced(s) && s.params == Defaults && CanUndo(s)
    ensures PerformRedo(PerformUndo(s, ops), ops) == s
  {
    var u := PerformUndo(s, ops);
    assert CanRedo(u);
  }

  /** From a synced state with neutral sliders, redo then undo is the identity. */
  lemma RedoThenUndo(s: Session, ops: PixelOps)
    requires Valid(s, ops) && Synced(s) && s.params == Defaults && CanRedo(s)
    ensures PerformUndo(PerformRedo(s, ops), ops) == s
  {
    var u := PerformRedo(s, ops);
    assert CanUndo(u);
  }

  /** A commit after an undo discards the entry that redo would have restored:
      the history ends at the new entry and redo does nothing. */
  lemma CommitAfterUndoDiscardsRedo(s: Session, ops: PixelOps)
    requires Valid(s, ops) && CanUndo(s)
    ensures var c := PushUndoState(PerformUndo(s, ops));
      |c.undoHistory| == s.undoIndex + 1 &&
      c.undoHistory[..s.undoIndex] == s.undoHistory[..s.undoIndex] &&
      PerformRedo(c, ops) == c
  {
    var u := PerformUndo(s, ops);
    var c := PushUndoState(u);
    assert c.undoHistory[..s.undoIndex] == u.undoHistory[..s.undoIndex];
  }

  /** After a failed load the clean image is empty, so "Reset All" does nothing. */
  lemma FailedLoadDisablesReset(s: Session, decoded: Mat, ops: PixelOps)
    requires decoded.IsEmpty()
    ensures var l := LoadImage(s, decoded, ops);
      ResetEdits(l, ops) == l && l.originalMat == s.originalMat && l.displayMat == s.displayMat &&
      l.undoHistory == s.undoHistory && l.undoIndex == s.undoIndex
  {
  }

  /** A failed load keeps the previous display, and "Save" then writes it
      to the path of the file that failed to load. */
  lemma FailedLoadThenSaveWritesPrevious(s: Session, decoded: Mat, newPath: string, ops: PixelOps)
    requires decoded.IsEmpty() && !s.displayMat.IsEmpty() && newPath != ""
    ensures SaveFileWrite(LoadImage(s, decoded, ops), newPath) == Write(newPath, s.displayMat)
  {
  }

  /** After a successful save, "Reset All" restores the saved image. */
  lemma ResetAfterSaveRestoresSaved(s: Session, path: string, ops: PixelOps)
    requires Valid(s, ops) && !s.displayMat.IsEmpty() && path != ""
    ensures var r := ResetEdits(SaveFile(s, path, true), ops);
      r.originalMat == s.displayMat && r.displayMat == s.displayMat &&
      r.undoHistory == [s.displayMat] && r.undoIndex == 0
  {
  }

  // ----- rotation and redo, and the corrected rotation -----

  /** As written, undo then redo after `rotateRight` yields the image from
      before the rotation, so a rotation of a non-square image is lost. */
  lemma RotateRightRedoLosesRotation(s: Session, ops: PixelOps)
    requires Valid(s, ops) && s.undoIndex >= 0 && !s.originalMat.IsEmpty()
    requires s.originalMat.rows != s.originalMat.cols
    ensures var r := RotateRight(s, ops);
      PerformRedo(PerformUndo(r, ops), ops).originalMat == s.displayMat &&
      PerformRedo(PerformUndo(r, ops), ops).originalMat != r.originalMat &&
      !Synced(r)
  {
    var r := RotateRight(s, ops);
    RedoAfterUndoAfterCommit(s, r, s.displayMat, Rotate90(s.displayMat, ops), ops);
    assert s.displayMat.rows == s.originalMat.rows && s.displayMat.cols == s.originalMat.cols;
    assert r.undoHistory[r.undoIndex] == s.displayMat;
  }

  /** The commit the rotation evidently intends: the edited image is both
      recorded and installed. */
  function CommitEdited(s: Session, edited: Mat): (r: Session)
    requires HistoryValid(s)
    ensures CommitOf(s, r, edited, edited) && r.cropMode == s.cropMode
    ensures Synced(r) && !CanRedo(r)
  {
    PushUndoState(s.(displayMat := edited))
  }

  /** `rotateRight` with the snapshot taken after the rotation. It installs
      the same base as the code as written. */
  function RotateRightRecorded(s: Session, ops: PixelOps): (r: Session)
    requires HistoryValid(s)
    ensures s.originalMat.IsEmpty() ==> r == s
    ensures !s.originalMat.IsEmpty() ==>
      CommitOf(s, r, r.originalMat, r.originalMat) &&
      r.originalMat == RotateRight(s, ops).originalMat && Synced(r)
    ensures Valid(s, ops) ==> Valid(r, ops)
  {
    if s.originalMat.IsEmpty() then s else CommitEdited(s, Rotate90(s.displayMat, ops))
  }

  /** With the corrected rotation, undo restores the base from before it and
      redo restores the rotated image. */
  lemma RotateRightRecordedUndoRedo(s: Session, ops: PixelOps)
    requires Valid(s, ops) && Synced(s) && !s.originalMat.IsEmpty()
    ensures var r := RotateRightRecorded(s, ops);
      PerformUndo(r, ops).originalMat == s.originalMat &&
      PerformRedo(PerformUndo(r, ops), ops) == r
  {
    var r := RotateRightRecorded(s, ops);
    UndoAfterCommit(s, r, r.originalMat, r.originalMat, ops);
    RedoAfterUndoAfterCommit(s, r, r.originalMat, r.originalMat, ops);
  }

  // ----- scenarios -----

  /** Load A, move brightness to +50 (previewed, not committed), release,
      undo: the base is A again, with two history entries and the cursor at 0. */
  lemma BrightnessScenario(a: Mat, ops: PixelOps)
    requires !a.IsEmpty()
    ensures var loaded := LoadImage(Initial, a, ops);
      var moved := SetSliderValue(loaded, Brightness, 50, ops);
      var released := PushUndoState(moved);
      var undone := PerformUndo(released, ops);
      moved.originalMat == a && moved.displayMat == Pipeline(a, Defaults.(brightness := 50), ops) &&
      |moved.undoHistory| == 1 &&
      released.originalMat == moved.displayMat && |released.undoHistory| == 2 && released.undoIndex == 1 &&
      undone.originalMat == a && |undone.undoHistory| == 2 && undone.undoIndex == 0
  {
  }

  /** Load A, rotate twice, undo twice: the cursor is back at 0 with A as base;
      but the first undo already yields A, not A rotated once. */
  lemma RotateTwiceScenario(a: Mat, ops: PixelOps)
    requires !a.IsEmpty()
    ensures var loaded := LoadImage(Initial, a, ops);
      var once := RotateRight(loaded, ops);
      var twice := RotateRight(once, ops);
      var back1 := PerformUndo(twice, ops);
      var back2 := PerformUndo(back1, ops);
      once.originalMat == Rotate90(a, ops) && twice.originalMat == Rotate90(Rotate90(a, ops), ops) &&
      back1.originalMat == a && back1.undoIndex == 1 &&
      back2.originalMat == a && back2.undoIndex == 0 && |back2.undoHistory| == 3
  {
    var loaded := LoadImage(Initial, a, ops);
    var once := RotateRight(loaded, ops);
    assert once.undoHistory == [a, a];
    var twice := RotateRight(once, ops);
    assert twice.undoHistory == [a, a, Rotate90(a, ops)];
  }

  /** Every press of "Toggle Grayscale" from the rest state commits: two
      presses add two entries and leave the flag off. */
  lemma GrayscaleScenario(s: Session, ops: PixelOps)
    requires Valid(s, ops)
    ensures var once := ToggleGrayscale(s, ops);
      var twice := ToggleGrayscale(once, ops);
      |once.undoHistory| == s.undoIndex + 2 && |twice.undoHistory| == s.undoIndex + 3 &&
      !twice.params.isGrayscale && twice.undoIndex == s.undoIndex + 2
  {
  }
}
