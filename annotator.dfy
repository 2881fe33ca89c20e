/** The image annotator: an ordered list of labels and measurements in image pixels, LIFO undo and
    redo stacks of add/remove/move/edit records, the `a<n>` id counter, the two-click measurement, the
    label dialog, annotation dragging and the pan/zoom view. */
module Annotations {
  import opened JsValues
  import opened Viewport

  datatype Annotation =
    | Label(id: string, x: real, y: real, text: string, color: string)
    | Measure(id: string, x: real, y: real, x2: real, y2: real)

  /** A history record. `before` and `after` are complete snapshots of the annotation. */
  datatype Record =
    | Add(item: Annotation)
    | Remove(item: Annotation)
    | Move(id: string, before: Annotation, after: Annotation)
    | Edit(id: string, before: Annotation, after: Annotation)

  datatype History = History(anns: seq<Annotation>, undo: seq<Record>, redo: seq<Record>)

  /** The eight label colours; new labels start with the first. */
  const Palette: seq<string> :=
    ["#ff3b30", "#ff9500", "#ffcc00", "#34c759", "#007aff", "#5856d6", "#ff2d55", "#8e8e93"]

  // ---------------------------------------------------------------- ids

  /** The id `a<n>` given to the n-th created annotation. */
  function NewId(n: nat): string {
    "a" + NatToDecimal(n)
  }

  /** The number in an id of the form `/^a(\d+)$/`, read with `Number`. */
  function IdNumber(id: string): Option<nat> {
    if |id| >= 2 && id[0] == 'a' && AllDigits(id[1..]) then Some(DigitsValue(id[1..])) else None
  }

  lemma IdNumberOfNewId(n: nat)
    ensures IdNumber(NewId(n)) == Some(n)
  {
    assert NewId(n)[1..] == NatToDecimal(n);
    DecimalRoundTrip(n);
  }

  /** The id does not number an annotation at or beyond n. */
  predicate IdBelow(id: string, n: nat) {
    IdNumber(id).None? || IdNumber(id).value < n
  }

  predicate AllBelow(anns: seq<Annotation>, n: nat) {
    forall i :: 0 <= i < |anns| ==> IdBelow(anns[i].id, n)
  }

  predicate RecordBelow(r: Record, n: nat) {
    match r
    case Add(a) => IdBelow(a.id, n)
    case Remove(a) => IdBelow(a.id, n)
    case Move(id, b, a) => IdBelow(id, n) && IdBelow(b.id, n) && IdBelow(a.id, n)
    case Edit(id, b, a) => IdBelow(id, n) && IdBelow(b.id, n) && IdBelow(a.id, n)
  }

  predicate RecordsBelow(rs: seq<Record>, n: nat) {
    forall i :: 0 <= i < |rs| ==> RecordBelow(rs[i], n)
  }

  /** The id handed out next collides with no annotation whose number is below the counter. */
  lemma {:induction false} FreshId(anns: seq<Annotation>, n: nat)
    requires AllBelow(anns, n)
    ensures NoId(anns, NewId(n))
  {
    IdNumberOfNewId(n);
    forall i | 0 <= i < |anns| ensures anns[i].id != NewId(n) {
      assert IdBelow(anns[i].id, n);
    }
  }

  /** The largest number among ids of the form `a<digits>`, or 0: the `maxIdNum` of the restore. */
  function MaxIdNumber(anns: seq<Annotation>): (m: nat)
    ensures forall i :: 0 <= i < |anns| && IdNumber(anns[i].id).Some? ==> IdNumber(anns[i].id).value <= m
    ensures m == 0 || exists i :: 0 <= i < |anns| && IdNumber(anns[i].id) == Some(m)
  {
    if anns == [] then 0
    else
      var init := anns[..|anns| - 1];
      var m0 := MaxIdNumber(init);
      var last := anns[|anns| - 1];
      assert forall i :: 0 <= i < |init| ==> init[i] == anns[i];
      if IdNumber(last.id).Some? && IdNumber(last.id).value > m0 then IdNumber(last.id).value else m0
  }

  /** After the restore raises the counter past `maxIdNum`, every restored id is numbered below it. */
  lemma RestoredBelow(anns: seq<Annotation>, n: nat)
    requires n > MaxIdNumber(anns)
    ensures AllBelow(anns, n)
  {
  }

  // ---------------------------------------------------------------- list operations

  predicate NoId(anns: seq<Annotation>, id: string) {
    forall i :: 0 <= i < |anns| ==> anns[i].id != id
  }

  /** `anns.find(a => a.id === id)` */
  function Find(anns: seq<Annotation>, id: string): (r: Option<Annotation>)
    ensures r.None? <==> NoId(anns, id)
    ensures r.Some? ==> exists i :: 0 <= i < |anns| && anns[i] == r.value && r.value.id == id && NoId(anns[..i], id)
  {
    if anns == [] then None
    else if anns[0].id == id then
      assert NoId(anns[..0], id);
      Some(anns[0])
    else
      var r := Find(anns[1..], id);
      if r.Some? then
        var i :| 0 <= i < |anns[1..]| && anns[1..][i] == r.value && r.value.id == id && NoId(anns[1..][..i], id);
        assert anns[..i + 1] == [anns[0]] + anns[1..][..i];
        r
      else
        r
  }

  /** `anns.filter(a => a.id !== id)` */
  function Without(anns: seq<Annotation>, id: string): (r: seq<Annotation>)
    ensures forall a :: a in r <==> a in anns && a.id != id
    ensures NoId(r, id)
    ensures |r| <= |anns|
  {
    if anns == [] then []
    else (if anns[0].id == id then [] else [anns[0]]) + Without(anns[1..], id)
  }

  /** `anns.map(a => a.id === id ? p : a)`. The source merges `{...a, ...p}`; since every `p` stored
      here is a full snapshot of an annotation, the merge is `p` itself. */
  function ReplaceById(anns: seq<Annotation>, id: string, p: Annotation): (r: seq<Annotation>)
    ensures |r| == |anns|
    ensures forall i :: 0 <= i < |anns| ==> r[i] == (if anns[i].id == id then p else anns[i])
  {
    seq(|anns|, i requires 0 <= i < |anns| => if anns[i].id == id then p else anns[i])
  }

  lemma {:induction false} WithoutNothing(anns: seq<Annotation>, id: string)
    requires NoId(anns, id)
    ensures Without(anns, id) == anns
  {
    if anns != [] {
      WithoutNothing(anns[1..], id);
    }
  }

  lemma {:induction false} WithoutAppend(anns: seq<Annotation>, x: Annotation)
    ensures Without(anns + [x], x.id) == Without(anns, x.id)
  {
    if anns == [] {
      assert Without([x], x.id) == [] + Without([], x.id);
    } else {
      assert (anns + [x])[1..] == anns[1..] + [x];
      WithoutAppend(anns[1..], x);
    }
  }

  /** All annotations carrying `id` equal `p`, and `p` carries it too. */
  predicate AllMatches(anns: seq<Annotation>, id: string, p: Annotation) {
    p.id == id && forall i :: 0 <= i < |anns| && anns[i].id == id ==> anns[i] == p
  }

  lemma ReplaceTwice(anns: seq<Annotation>, id: string, p: Annotation, q: Annotation)
    requires p.id == id
    ensures ReplaceById(ReplaceById(anns, id, p), id, q) == ReplaceById(anns, id, q)
  {
  }

  lemma ReplaceAlready(anns: seq<Annotation>, id: string, p: Annotation)
    requires AllMatches(anns, id, p)
    ensures ReplaceById(anns, id, p) == anns
  {
  }

  // ---------------------------------------------------------------- undo and redo

  /** What `undo` does to the list for the popped record. */
  function ApplyUndo(anns: seq<Annotation>, r: Record): seq<Annotation> {
    match r
    case Add(x) => Without(anns, x.id)
    case Remove(x) => anns + [x]
    case Move(id, before, _) => ReplaceById(anns, id, before)
    case Edit(id, before, _) => ReplaceById(anns, id, before)
  }

  /** What `redo` does to the list for the popped record. */
  function ApplyRedo(anns: seq<Annotation>, r: Record): seq<Annotation> {
    match r
    case Add(x) => anns + [x]
    case Remove(x) => Without(anns, x.id)
    case Move(id, _, after) => ReplaceById(anns, id, after)
    case Edit(id, _, after) => ReplaceById(anns, id, after)
  }

  /** `pushAction`: the list becomes `anns`, the record goes on top of undo and redo is emptied. */
  function Push(h: History, anns: seq<Annotation>, r: Record): (h': History)
    ensures h'.anns == anns && h'.undo == h.undo + [r] && h'.redo == []
  {
    History(anns, h.undo + [r], [])
  }

  function UndoH(h: History): (h': History)
    ensures h.undo == [] ==> h' == h
    ensures h.undo != [] ==> |h'.undo| + 1 == |h.undo| && h'.redo == h.redo + [h.undo[|h.undo| - 1]]
  {
    if h.undo == [] then h
    else
      var last := h.undo[|h.undo| - 1];
      History(ApplyUndo(h.anns, last), h.undo[..|h.undo| - 1], h.redo + [last])
  }

  function RedoH(h: History): (h': History)
    ensures h.redo == [] ==> h' == h
    ensures h.redo != [] ==> |h'.redo| + 1 == |h.redo| && h'.undo == h.undo + [h.redo[|h.redo| - 1]]
  {
    if h.redo == [] then h
    else
      var last := h.redo[|h.redo| - 1];
      History(ApplyRedo(h.anns, last), h.undo + [last], h.redo[..|h.redo| - 1])
  }

  /** The list is in the state the record's forward operation leaves behind. */
  predicate After(anns: seq<Annotation>, r: Record) {
    match r
    case Add(x) => |anns| > 0 && anns[|anns| - 1] == x && NoId(anns[..|anns| - 1], x.id)
    case Remove(x) => NoId(anns, x.id)
    case Move(id, before, after) => before.id == id && AllMatches(anns, id, after)
    case Edit(id, before, after) => before.id == id && AllMatches(anns, id, after)
  }

  /** The list is in the state the record's forward operation started from (up to the position a
      removed annotation is re-inserted at). */
  predicate Before(anns: seq<Annotation>, r: Record) {
    match r
    case Add(x) => NoId(anns, x.id)
    case Remove(x) => |anns| > 0 && anns[|anns| - 1] == x && NoId(anns[..|anns| - 1], x.id)
    case Move(id, before, after) => after.id == id && AllMatches(anns, id, before)
    case Edit(id, before, after) => after.id == id && AllMatches(anns, id, before)
  }

  /** Undoing a record from its after-state reaches its before-state, and redoing it from there
      returns to exactly the same list. */
  lemma UndoThenRedo(anns: seq<Annotation>, r: Record)
    requires After(anns, r)
    ensures Before(ApplyUndo(anns, r), r)
    ensures ApplyRedo(ApplyUndo(anns, r), r) == anns
  {
    match r
    case Add(x) =>
      var p := anns[..|anns| - 1];
      assert anns == p + [x];
      WithoutAppend(p, x);
      WithoutNothing(p, x.id);
    case Remove(x) =>
      assert (anns + [x])[..|anns|] == anns;
      WithoutAppend(anns, x);
      WithoutNothing(anns, x.id);
    case Move(id, before, after) =>
      ReplaceTwice(anns, id, before, after);
      ReplaceAlready(anns, id, after);
    case Edit(id, before, after) =>
      ReplaceTwice(anns, id, before, after);
      ReplaceAlready(anns, id, after);
  }

  /** Redoing a record from its before-state reaches its after-state, and undoing it from there
      returns to exactly the same list. */
  lemma RedoThenUndo(anns: seq<Annotation>, r: Record)
    requires Before(anns, r)
    ensures After(ApplyRedo(anns, r), r)
    ensures ApplyUndo(ApplyRedo(anns, r), r) == anns
  {
    match r
    case Add(x) =>
      assert (anns + [x])[..|anns|] == anns;
      WithoutAppend(anns, x);
      WithoutNothing(anns, x.id);
    case Remove(x) =>
      var p := anns[..|anns| - 1];
      assert anns == p + [x];
      WithoutAppend(p, x);
      WithoutNothing(p, x.id);
    case Move(id, before, after) =>
      ReplaceTwice(anns, id, after, before);
      ReplaceAlready(anns, id, before);
    case Edit(id, before, after) =>
      ReplaceTwice(anns, id, after, before);
      ReplaceAlready(anns, id, before);
  }

  /** `redo` right after `undo` restores the whole history, both stacks included. */
  lemma {:induction false} RedoUndoIdentity(h: History)
    requires h.undo != [] && After(h.anns, h.undo[|h.undo| - 1])
    ensures RedoH(UndoH(h)) == h
  {
    UndoThenRedo(h.anns, h.undo[|h.undo| - 1]);
    assert h.undo[..|h.undo| - 1] + [h.undo[|h.undo| - 1]] == h.undo;
  }

  /** `undo` right after `redo` restores the whole history, both stacks included. */
  lemma {:induction false} UndoRedoIdentity(h: History)
    requires h.redo != [] && Before(h.anns, h.redo[|h.redo| - 1])
    ensures UndoH(RedoH(h)) == h
  {
    RedoThenUndo(h.anns, h.redo[|h.redo| - 1]);
    assert h.redo[..|h.redo| - 1] + [h.redo[|h.redo| - 1]] == h.redo;
  }

  /** Adding an annotation with a fresh id, undoing and redoing gives the identical history back;
      the intermediate list is the original one. */
  lemma {:induction false} AddUndoRedo(h: History, x: Annotation)
    requires NoId(h.anns, x.id)
    ensures UndoH(Push(h, h.anns + [x], Add(x))) == History(h.anns, h.undo, [Add(x)])
    ensures RedoH(UndoH(Push(h, h.anns + [x], Add(x)))) == Push(h, h.anns + [x], Add(x))
  {
    var h1 := Push(h, h.anns + [x], Add(x));
    assert (h.anns + [x])[..|h.anns|] == h.anns;
    UndoThenRedo(h1.anns, Add(x));
    WithoutAppend(h.anns, x);
    WithoutNothing(h.anns, x.id);
    assert h1.undo[..|h1.undo| - 1] == h.undo;
  }

  /** Undoing a removal puts the annotation back at the end of the list, not where it was:
      removing `a1` from `[a1, a2]` and undoing gives `[a2, a1]`. */
  lemma UndoRemoveAppends()
    ensures var a1 := Label("a1", 0.0, 0.0, "x", Palette[0]);
            var a2 := Label("a2", 1.0, 1.0, "y", Palette[0]);
            var h := History([a1, a2], [], []);
            var removed := Push(h, Without(h.anns, "a1"), Remove(a1));
            UndoH(removed).anns == [a2, a1] && UndoH(removed).anns != h.anns
  {
    var a1 := Label("a1", 0.0, 0.0, "x", Palette[0]);
    var a2 := Label("a2", 1.0, 1.0, "y", Palette[0]);
    assert Without([a1, a2], "a1") == [a2] by {
      assert [a1, a2][1..] == [a2];
      assert Without([a2], "a1") == [a2] + Without([], "a1");
    }
  }

  // ---------------------------------------------------------------- keyboard

  datatype Command = UndoCommand | RedoCommand | CloseLabelDialog | CloseViewer | NoCommand

  /** The keydown handler as written: any Ctrl/Cmd-"Z" is taken by the undo branch first. */
  function KeyCommandAsWritten(key: string, ctrl: bool, meta: bool, shift: bool, dialogOpen: bool): Command {
    if (key == "z" || key == "Z") && (ctrl || meta) then UndoCommand
    else if (key == "y" || (key == "Z" && ctrl && shift)) && (ctrl || meta) then RedoCommand
    else if key == "Escape" then (if dialogOpen then CloseLabelDialog else CloseViewer)
    else NoCommand
  }

  /** Ctrl+Shift+Z, which the redo branch names, triggers undo. */
  lemma CtrlShiftZUndoes(dialogOpen: bool)
    ensures KeyCommandAsWritten("Z", true, false, true, dialogOpen) == UndoCommand
  {
  }

  /** The handler with the redo chord taken out of the undo branch. */
  function KeyCommand(key: string, ctrl: bool, meta: bool, shift: bool, dialogOpen: bool): (c: Command)
    ensures key == "Z" && ctrl && shift ==> c == RedoCommand
    ensures !(key == "Z" && ctrl && shift) ==> c == KeyCommandAsWritten(key, ctrl, meta, shift, dialogOpen)
  {
    if (key == "z" || key == "Z") && (ctrl || meta) && !(key == "Z" && ctrl && shift) then UndoCommand
    else if (key == "y" || (key == "Z" && ctrl && shift)) && (ctrl || meta) then RedoCommand
    else if key == "Escape" then (if dialogOpen then CloseLabelDialog else CloseViewer)
    else NoCommand
  }

  // ---------------------------------------------------------------- dragging

  datatype Part = LabelPart | P1 | P2

  /** An annotation being dragged: its id, the handle and a snapshot taken when the drag started. */
  datatype Drag = Drag(id: string, part: Part, before: Annotation)

  /** The pointer-move update for one annotation: a label follows its "label" handle, a measurement
      moves its first or second end point; any other combination is left as it is. */
  function Dragged(a: Annotation, part: Part, p: Point): (b: Annotation)
    ensures b.id == a.id && (b.Label? <==> a.Label?)
  {
    match a
    case Label(id, _, _, text, color) => if part == LabelPart then Label(id, p.x, p.y, text, color) else a
    case Measure(id, x, y, x2, y2) =>
      if part == P1 then Measure(id, p.x, p.y, x2, y2)
      else if part == P2 then Measure(id, x, y, p.x, p.y)
      else a
  }

  function DragAll(anns: seq<Annotation>, id: string, part: Part, p: Point): (r: seq<Annotation>)
    ensures |r| == |anns|
    ensures forall i :: 0 <= i < |anns| ==> r[i] == (if anns[i].id == id then Dragged(anns[i], part, p) else anns[i])
  {
    seq(|anns|, i requires 0 <= i < |anns| => if anns[i].id == id then Dragged(anns[i], part, p) else anns[i])
  }

  predicate UniqueIds(anns: seq<Annotation>) {
    forall i, j :: 0 <= i < j < |anns| ==> anns[i].id != anns[j].id
  }

  /** With distinct ids, the annotation found for the id is the only one carrying it. */
  lemma FoundIsAllMatches(anns: seq<Annotation>, id: string)
    requires UniqueIds(anns) && Find(anns, id).Some?
    ensures AllMatches(anns, id, Find(anns, id).value)
  {
    var i :| 0 <= i < |anns| && anns[i] == Find(anns, id).value && anns[i].id == id && NoId(anns[..i], id);
    assert forall j :: 0 <= j < i ==> anns[j].id != id by {
      forall j | 0 <= j < i ensures anns[j].id != id { assert anns[..i][j] == anns[j]; }
    }
  }

  // ---------------------------------------------------------------- dialog and interaction state

  datatype LabelDialog = LabelDialog(open: bool, text: string, x: real, y: real, editingId: Option<string>, color: string)

  const ClosedDialog: LabelDialog := LabelDialog(false, "", 0.0, 0.0, None, Palette[0])

  datatype Menu = Menu(x: real, y: real, targetId: string)

  datatype Tool = PanTool | MeasureTool | LabelTool

  /** The pan gesture: whether it is active, where it started and the offset at that moment. */
  datatype Pan = Pan(dragging: bool, start: Point, startOffset: Offset)

  /** The interaction state besides the history and the view; `mmPerPx` is the calibration scale and
      `skipFitOnLoad` says that a restored view must not be replaced by a fit when the image loads. */
  datatype Ui = Ui(tempPoint: Option<Point>, drag: Option<Drag>, dialog: LabelDialog, menu: Option<Menu>, tool: Tool, pan: Pan,
                   mmPerPx: real, skipFitOnLoad: bool)

  /** The initial calibration, in millimetres per pixel. */
  const DefaultMmPerPx: real := 0.264

  /** What the restore effect reads from a stored entry: the annotations when they form an array,
      `mmPerPx` when it is a number, `zoom` when it is a number (0 is read but, being falsy, not
      restored) and `offset` when its `x` is a number. */
  datatype Saved = Saved(annotations: Option<seq<Annotation>>, mmPerPx: Option<real>, zoom: Option<real>, offset: Option<Point>)

  /** A JavaScript number plus a finite step; an infinity or NaN stays as it is. */
  function Shift(p: Px, d: real): (r: Px)
    ensures p.Fin? ==> r == Fin(p.v + d)
    ensures !p.Fin? ==> r == p
  {
    if p.Fin? then Fin(p.v + d) else p
  }

  class Annotator {
    var annotations: seq<Annotation>
    var undoStack: seq<Record>
    var redoStack: seq<Record>
    var idCounter: nat
    var tempPoint: Option<Point>
    var drag: Option<Drag>
    var dialog: LabelDialog
    var menu: Option<Menu>
    var tool: Tool
    var pan: Pan
    var mmPerPx: real
    var skipFitOnLoad: bool
    var view: View

    /** Every id numbered by the counter scheme, in the list and in both stacks, is below the counter. */
    ghost predicate Valid()
      reads this
    {
      idCounter >= 1 &&
      AllBelow(annotations, idCounter) && RecordsBelow(undoStack, idCounter) && RecordsBelow(redoStack, idCounter) &&
      (drag.Some? ==> drag.value.before.id == drag.value.id && IdBelow(drag.value.id, idCounter))
    }

    function Hist(): History
      reads this
    {
      History(annotations, undoStack, redoStack)
    }

    function UiState(): Ui
      reads this
    {
      Ui(tempPoint, drag, dialog, menu, tool, pan, mmPerPx, skipFitOnLoad)
    }

    constructor()
      ensures Valid()
      ensures Hist() == History([], [], []) && idCounter == 1
      ensures UiState() == Ui(None, None, ClosedDialog, None, PanTool, Pan(false, Point(0.0, 0.0), Origin), DefaultMmPerPx, false)
      ensures view == View(1.0, Origin)
    {
      annotations := [];
      undoStack := [];
      redoStack := [];
      idCounter := 1;
      tempPoint := None;
      drag := None;
      dialog := ClosedDialog;
      menu := None;
      tool := PanTool;
      pan := Pan(false, Point(0.0, 0.0), Origin);
      mmPerPx := DefaultMmPerPx;
      skipFitOnLoad := false;
      view := View(1.0, Origin);
    }

    method PushAction(r: Record)
      requires Valid() && RecordBelow(r, idCounter)
      modifies this
      ensures Valid()
      ensures Hist() == Push(old(Hist()), annotations, r)
      ensures annotations == old(annotations) && idCounter == old(idCounter)
      ensures UiState() == old(UiState()) && view == old(view)
    {
      undoStack := undoStack + [r];
      redoStack := [];
    }

    method Undo()
      requires Valid()
      modifies this
      ensures Valid()
      ensures Hist() == UndoH(old(Hist())) && idCounter == old(idCounter)
      ensures UiState() == old(UiState()).(menu := None) && view == old(view)
    {
      if |undoStack| > 0 {
        var last := undoStack[|undoStack| - 1];
        annotations := ApplyUndo(annotations, last);
        redoStack := redoStack + [last];
        undoStack := undoStack[..|undoStack| - 1];
      }
      menu := None;
    }

    method Redo()
      requires Valid()
      modifies this
      ensures Valid()
      ensures Hist() == RedoH(old(Hist())) && idCounter == old(idCounter)
      ensures UiState() == old(UiState()).(menu := None) && view == old(view)
    {
      if |redoStack| > 0 {
        var last := redoStack[|redoStack| - 1];
        annotations := ApplyRedo(annotations, last);
        undoStack := undoStack + [last];
        redoStack := redoStack[..|redoStack| - 1];
      }
      menu := None;
    }

    /** `confirmAddLabel(text)`: empty text only closes the dialog. */
    method ConfirmAddLabel(text: string)
      requires Valid()
      modifies this
      ensures Valid()
      ensures text == "" ==> Hist() == old(Hist()) && idCounter == old(idCounter)
      ensures text != "" ==>
        var ann := Label(NewId(old(idCounter)), old(dialog).x, old(dialog).y, text, old(dialog).color);
        NoId(old(annotations), ann.id) &&
        Hist() == Push(old(Hist()), old(annotations) + [ann], Add(ann)) &&
        After(annotations, Add(ann)) && idCounter == old(idCounter) + 1
      ensures UiState() == old(UiState()).(dialog := ClosedDialog) && view == old(view)
    {
      if text != "" {
        var ann := Label(NewId(idCounter), dialog.x, dialog.y, text, dialog.color);
        FreshId(annotations, idCounter);
        IdNumberOfNewId(idCounter);
        idCounter := idCounter + 1;
        annotations := annotations + [ann];
        assert annotations[..|annotations| - 1] == old(annotations);
        PushAction(Add(ann));
      }
      dialog := ClosedDialog;
    }

    /** `addMeasureFinal`: appends a measurement between the two points under a new id. */
    method AddMeasureFinal(p1: Point, p2: Point)
      requires Valid()
      modifies this
      ensures Valid()
      ensures var ann := Measure(NewId(old(idCounter)), p1.x, p1.y, p2.x, p2.y);
        NoId(old(annotations), ann.id) &&
        Hist() == Push(old(Hist()), old(annotations) + [ann], Add(ann)) &&
        After(annotations, Add(ann)) && idCounter == old(idCounter) + 1
      ensures UiState() == old(UiState()) && view == old(view)
    {
      var ann := Measure(NewId(idCounter), p1.x, p1.y, p2.x, p2.y);
      FreshId(annotations, idCounter);
      IdNumberOfNewId(idCounter);
      idCounter := idCounter + 1;
      annotations := annotations + [ann];
      assert annotations[..|annotations| - 1] == old(annotations);
      PushAction(Add(ann));
    }

    /** `removeAnnotation(id)`: an absent id changes neither the list nor the stacks. */
    method RemoveAnnotation(id: string)
      requires Valid()
      modifies this
      ensures Valid()
      ensures Find(old(annotations), id).None? ==> Hist() == old(Hist())
      ensures Find(old(annotations), id).Some? ==>
        var removed := Find(old(annotations), id).value;
        Hist() == Push(old(Hist()), Without(old(annotations), id), Remove(removed)) &&
        After(annotations, Remove(removed))
      ensures idCounter == old(idCounter)
      ensures UiState() == old(UiState()).(menu := None) && view == old(view)
    {
      var removed := Find(annotations, id);
      if removed.Some? {
        var i :| 0 <= i < |annotations| && annotations[i] == removed.value;
        assert IdBelow(annotations[i].id, idCounter);
        annotations := Without(annotations, id);
        forall j | 0 <= j < |annotations| ensures IdBelow(annotations[j].id, idCounter) {
          assert annotations[j] in old(annotations);
        }
        PushAction(Remove(removed.value));
      }
      menu := None;
    }

    /** `openEditLabelModal(ann)` */
    method OpenEditLabel(ann: Annotation)
      requires Valid() && ann.Label?
      modifies this
      ensures Valid()
      ensures dialog == LabelDialog(true, ann.text, ann.x, ann.y, Some(ann.id), if ann.color != "" then ann.color else Palette[0])
      ensures Hist() == old(Hist()) && idCounter == old(idCounter) && view == old(view)
      ensures UiState() == old(UiState()).(dialog := dialog)
    {
      dialog := LabelDialog(true, ann.text, ann.x, ann.y, Some(ann.id), if ann.color != "" then ann.color else Palette[0]);
    }

    /** `confirmEditLabel(text)`: without an edited id it adds a label; an id no longer present only
        closes the dialog; otherwise the label takes the text and colour and an edit is recorded. */
    method ConfirmEditLabel(text: string)
      requires Valid()
      modifies this
      ensures Valid()
      ensures old(dialog).editingId.None? && text == "" ==> Hist() == old(Hist()) && idCounter == old(idCounter)
      ensures old(dialog).editingId.None? && text != "" ==>
        var ann := Label(NewId(old(idCounter)), old(dialog).x, old(dialog).y, text, old(dialog).color);
        Hist() == Push(old(Hist()), old(annotations) + [ann], Add(ann)) && idCounter == old(idCounter) + 1
      ensures old(dialog).editingId.Some? ==> idCounter == old(idCounter)
      ensures old(dialog).editingId.Some? && Find(old(annotations), old(dialog).editingId.value).None? ==>
        Hist() == old(Hist())
      ensures old(dialog).editingId.Some? && Find(old(annotations), old(dialog).editingId.value).Some? ==>
        var id := old(dialog).editingId.value;
        var before := Find(old(annotations), id).value;
        var after := Relabelled(before, text, old(dialog).color);
        Hist() == Push(old(Hist()), ReplaceById(old(annotations), id, after), Edit(id, before, after)) &&
        After(annotations, Edit(id, before, after))
      ensures UiState() == old(UiState()).(dialog := ClosedDialog) && view == old(view)
    {
      if dialog.editingId.None? {
        ConfirmAddLabel(text);
        return;
      }
      var id := dialog.editingId.value;
      var before := Find(annotations, id);
      if before.Some? {
        var after := Relabelled(before.value, text, dialog.color);
        var i :| 0 <= i < |annotations| && annotations[i] == before.value;
        assert IdBelow(annotations[i].id, idCounter);
        annotations := ReplaceById(annotations, id, after);
        PushAction(Edit(id, before.value, after));
      }
      dialog := ClosedDialog;
    }

    /** `handleAnnotationPointerDown`: starts dragging one handle of an annotation. */
    method DragStart(ann: Annotation, part: Part)
      requires Valid() && ann in annotations
      modifies this
      ensures Valid()
      ensures UiState() == old(UiState()).(drag := Some(Drag(ann.id, part, ann)))
      ensures Hist() == old(Hist()) && idCounter == old(idCounter) && view == old(view)
    {
      drag := Some(Drag(ann.id, part, ann));
    }

    /** `handleDocumentPointerMove`; `imagePoint` is the pointer in image pixels, None when the image
        is not mounted. */
    method DragMove(imagePoint: Option<Point>)
      requires Valid()
      modifies this
      ensures Valid()
      ensures old(drag).None? || imagePoint.None? ==> annotations == old(annotations)
      ensures old(drag).Some? && imagePoint.Some? ==>
        annotations == DragAll(old(annotations), old(drag).value.id, old(drag).value.part, imagePoint.value)
      ensures undoStack == old(undoStack) && redoStack == old(redoStack) && idCounter == old(idCounter)
      ensures UiState() == old(UiState()) && view == old(view)
    {
      if drag.Some? && imagePoint.Some? {
        annotations := DragAll(annotations, drag.value.id, drag.value.part, imagePoint.value);
      }
    }

    /** `handleDocumentPointerUp`: records a move from the start snapshot to the annotation now
        carrying the id (even when it did not move) and ends the drag. */
    method DragEnd()
      requires Valid()
      modifies this
      ensures Valid()
      ensures old(drag).None? ==> Hist() == old(Hist()) && UiState() == old(UiState())
      ensures old(drag).Some? && Find(old(annotations), old(drag).value.id).None? ==> Hist() == old(Hist())
      ensures old(drag).Some? && Find(old(annotations), old(drag).value.id).Some? ==>
        var d := old(drag).value;
        var rec := Move(d.id, d.before, Find(old(annotations), d.id).value);
        Hist() == Push(old(Hist()), old(annotations), rec) &&
        (UniqueIds(annotations) ==> After(annotations, rec))
      ensures old(drag).Some? ==> UiState() == old(UiState()).(drag := None)
      ensures idCounter == old(idCounter) && view == old(view)
    {
      if drag.None? {
        return;
      }
      var d := drag.value;
      var after := Find(annotations, d.id);
      if after.Some? {
        var i :| 0 <= i < |annotations| && annotations[i] == after.value;
        assert IdBelow(annotations[i].id, idCounter);
        if UniqueIds(annotations) {
          FoundIsAllMatches(annotations, d.id);
        }
        PushAction(Move(d.id, d.before, after.value));
      }
      drag := None;
    }

    /** `clampAndSet(z, proposed)` */
    method ClampAndSet(env: Env, z: real, proposed: Option<Offset>)
      requires Valid()
      modifies this
      ensures Valid()
      ensures view == ClampView(env, z, proposed)
      ensures Hist() == old(Hist()) && idCounter == old(idCounter) && UiState() == old(UiState())
    {
      view := ClampView(env, z, proposed);
    }

    /** `handlePointerDown`: `imagePoint` is the pointer in image pixels, None when unmounted. */
    method PointerDown(button: int, client: Point, imagePoint: Option<Point>)
      requires Valid()
      modifies this
      ensures Valid()
      ensures view == old(view)
      ensures button != 0 || old(drag).Some? ==>
        Hist() == old(Hist()) && idCounter == old(idCounter) && UiState() == old(UiState())
      ensures button == 0 && old(drag).None? && old(tool) == PanTool ==>
        Hist() == old(Hist()) && idCounter == old(idCounter) &&
        UiState() == old(UiState()).(pan := Pan(true, client, old(view).offset))
      ensures button == 0 && old(drag).None? && old(tool) != PanTool && imagePoint.None? ==>
        Hist() == old(Hist()) && idCounter == old(idCounter) && UiState() == old(UiState())
      ensures button == 0 && old(drag).None? && old(tool) == LabelTool && imagePoint.Some? ==>
        Hist() == old(Hist()) && idCounter == old(idCounter) &&
        UiState() == old(UiState()).(dialog := LabelDialog(true, "", imagePoint.value.x, imagePoint.value.y, None, Palette[0]))
      ensures button == 0 && old(drag).None? && old(tool) == MeasureTool && imagePoint.Some? && old(tempPoint).None? ==>
        Hist() == old(Hist()) && idCounter == old(idCounter) &&
        UiState() == old(UiState()).(tempPoint := imagePoint)
      ensures button == 0 && old(drag).None? && old(tool) == MeasureTool && imagePoint.Some? && old(tempPoint).Some? ==>
        var t := old(tempPoint).value;
        var p := imagePoint.value;
        var ann := Measure(NewId(old(idCounter)), t.x, t.y, p.x, p.y);
        Hist() == Push(old(Hist()), old(annotations) + [ann], Add(ann)) && idCounter == old(idCounter) + 1 &&
        UiState() == old(UiState()).(tempPoint := None)
    {
      if button != 0 || drag.Some? {
        return;
      }
      if tool == PanTool {
        pan := Pan(true, client, view.offset);
        return;
      }
      if imagePoint.None? {
        return;
      }
      var p := imagePoint.value;
      if tool == LabelTool {
        dialog := LabelDialog(true, "", p.x, p.y, None, Palette[0]);
        return;
      }
      if tempPoint.None? {
        tempPoint := Some(p);
      } else {
        AddMeasureFinal(tempPoint.value, p);
        tempPoint := None;
      }
    }

    /** `handlePointerMove`: while panning, the offset follows the pointer from where the pan started. */
    method PointerMove(env: Env, client: Point)
      requires Valid()
      modifies this
      ensures Valid()
      ensures old(pan).dragging && old(tool) == PanTool ==>
        view == ClampView(env, old(view).zoom,
          Some(Offset(Shift(old(pan).startOffset.x, client.x - old(pan).start.x),
                      Shift(old(pan).startOffset.y, client.y - old(pan).start.y))))
      ensures !(old(pan).dragging && old(tool) == PanTool) ==> view == old(view)
      ensures Hist() == old(Hist()) && idCounter == old(idCounter) && UiState() == old(UiState())
    {
      if pan.dragging && tool == PanTool {
        var dx := client.x - pan.start.x;
        var dy := client.y - pan.start.y;
        ClampAndSet(env, view.zoom, Some(Offset(Shift(pan.startOffset.x, dx), Shift(pan.startOffset.y, dy))));
      }
    }

    method PointerUp()
      requires Valid()
      modifies this
      ensures Valid()
      ensures UiState() == old(UiState()).(pan := old(pan).(dragging := false))
      ensures Hist() == old(Hist()) && idCounter == old(idCounter) && view == old(view)
    {
      pan := pan.(dragging := false);
    }

    /** `handleWheel`, at any stored zoom (zoom 0 included). */
    method Wheel(env: Env, deltaY: real, cx: real, cy: real)
      requires Valid()
      modifies this
      ensures Valid()
      ensures WheelView(env, old(view), deltaY, cx, cy).None? ==> view == old(view)
      ensures WheelView(env, old(view), deltaY, cx, cy).Some? ==> view == WheelView(env, old(view), deltaY, cx, cy).value
      ensures Hist() == old(Hist()) && idCounter == old(idCounter) && UiState() == old(UiState())
    {
      var r := WheelView(env, view, deltaY, cx, cy);
      if r.Some? {
        view := r.value;
      }
    }

    method ResetToOrigin(env: Env)
      requires Valid()
      modifies this
      ensures Valid()
      ensures view == ResetView(env)
      ensures Hist() == old(Hist()) && idCounter == old(idCounter) && UiState() == old(UiState()).(skipFitOnLoad := false)
    {
      ClampAndSet(env, 1.0, Some(Origin));
      skipFitOnLoad := false;
    }

    method FitToWindow(env: Env)
      requires Valid()
      modifies this
      ensures Valid()
      ensures FitView(env).None? ==> view == old(view) && UiState() == old(UiState())
      ensures FitView(env).Some? ==> view == FitView(env).value && UiState() == old(UiState()).(skipFitOnLoad := false)
      ensures Hist() == old(Hist()) && idCounter == old(idCounter)
    {
      var r := FitView(env);
      if r.Some? {
        view := r.value;
        skipFitOnLoad := false;
      }
    }

    /** The keydown handler (with the redo chord corrected); returns whether the viewer asks to close. */
    method KeyDown(key: string, ctrl: bool, meta: bool, shift: bool) returns (closeViewer: bool)
      requires Valid()
      modifies this
      ensures Valid()
      ensures closeViewer <==> KeyCommand(key, ctrl, meta, shift, old(dialog).open) == CloseViewer
      ensures KeyCommand(key, ctrl, meta, shift, old(dialog).open) == UndoCommand ==> Hist() == UndoH(old(Hist()))
      ensures KeyCommand(key, ctrl, meta, shift, old(dialog).open) == RedoCommand ==> Hist() == RedoH(old(Hist()))
      ensures KeyCommand(key, ctrl, meta, shift, old(dialog).open) == CloseLabelDialog ==>
        Hist() == old(Hist()) && UiState() == old(UiState()).(dialog := ClosedDialog)
      ensures KeyCommand(key, ctrl, meta, shift, old(dialog).open) in {CloseViewer, NoCommand} ==>
        Hist() == old(Hist()) && UiState() == old(UiState())
      ensures idCounter == old(idCounter) && view == old(view)
    {
      closeViewer := false;
      var c := KeyCommand(key, ctrl, meta, shift, dialog.open);
      if c == UndoCommand {
        Undo();
      } else if c == RedoCommand {
        Redo();
      } else if c == CloseLabelDialog {
        dialog := ClosedDialog;
      } else if c == CloseViewer {
        closeViewer := true;
      }
    }

    /** The restore effect. `saved` is None when there is no storage key, no stored entry or the entry
        does not parse: then only the skip flag is cleared. Otherwise saved annotations replace the
        list and the counter is raised past every restored `a<n>` id by a scan for the largest n; a
        saved scale is taken; a non-zero saved zoom is taken unclamped and sets the skip flag; a saved
        offset is taken as it is. */
    method Restore(saved: Option<Saved>)
      requires Valid()
      modifies this
      ensures Valid()
      ensures saved.None? || saved.value.annotations.None? ==> annotations == old(annotations) && idCounter == old(idCounter)
      ensures saved.Some? && saved.value.annotations.Some? ==>
        var anns := saved.value.annotations.value;
        annotations == anns &&
        idCounter == (if old(idCounter) > MaxIdNumber(anns) + 1 then old(idCounter) else MaxIdNumber(anns) + 1)
      ensures NoId(annotations, NewId(idCounter))
      ensures undoStack == old(undoStack) && redoStack == old(redoStack)
      ensures saved.None? ==> UiState() == old(UiState()).(skipFitOnLoad := false) && view == old(view)
      ensures saved.Some? ==>
        var sv := saved.value;
        var restoresZoom := sv.zoom.Some? && sv.zoom.value != 0.0;
        UiState() == old(UiState()).(mmPerPx := if sv.mmPerPx.Some? then sv.mmPerPx.value else old(mmPerPx),
                                     skipFitOnLoad := restoresZoom) &&
        view == View(if restoresZoom then sv.zoom.value else old(view).zoom,
                     if sv.offset.Some? then At(sv.offset.value) else old(view).offset)
    {
      if saved.None? {
        skipFitOnLoad := false;
      } else {
        var sv := saved.value;
        ghost var ui := UiState();
        if sv.annotations.Some? {
          RestoreList(sv.annotations.value);
        }
        assert UiState() == ui;
        RestoreView(sv);
        assert UiState() == ui.(mmPerPx := mmPerPx, skipFitOnLoad := skipFitOnLoad);
      }
      FreshId(annotations, idCounter);
    }

    /** The annotation part of the restore effect: the list is replaced and the counter raised past
        the largest restored id number. */
    method RestoreList(anns: seq<Annotation>)
      requires Valid()
      modifies this`annotations, this`idCounter
      ensures Valid()
      ensures annotations == anns
      ensures idCounter == (if old(idCounter) > MaxIdNumber(anns) + 1 then old(idCounter) else MaxIdNumber(anns) + 1)
    {
      var maxIdNum := ScanMaxId(anns);
      annotations := anns;
      if idCounter < maxIdNum + 1 {
        idCounter := maxIdNum + 1;
      }
      RestoredBelow(anns, idCounter);
    }

    /** The scale and view part of the restore effect. */
    method RestoreView(sv: Saved)
      modifies this`mmPerPx, this`skipFitOnLoad, this`view
      ensures mmPerPx == if sv.mmPerPx.Some? then sv.mmPerPx.value else old(mmPerPx)
      ensures skipFitOnLoad == (sv.zoom.Some? && sv.zoom.value != 0.0)
      ensures view == View(if sv.zoom.Some? && sv.zoom.value != 0.0 then sv.zoom.value else old(view).zoom,
                           if sv.offset.Some? then At(sv.offset.value) else old(view).offset)
    {
      if sv.mmPerPx.Some? {
        mmPerPx := sv.mmPerPx.value;
      }
      if sv.zoom.Some? && sv.zoom.value != 0.0 {
        view := view.(zoom := sv.zoom.value);
        skipFitOnLoad := true;
      } else {
        skipFitOnLoad := false;
      }
      if sv.offset.Some? {
        view := view.(offset := At(sv.offset.value));
      }
    }

    /** The image's `onLoad`: fit to the window unless a restored view is to be kept, in which case
        the restored zoom and offset go through the clamp (every stored component is a number, so
        the `typeof` fallback to 0 never applies). */
    method ImageLoaded(env: Env)
      requires Valid()
      modifies this
      ensures Valid()
      ensures !old(skipFitOnLoad) ==>
        (FitView(env).None? ==> view == old(view) && UiState() == old(UiState())) &&
        (FitView(env).Some? ==> view == FitView(env).value && UiState() == old(UiState()).(skipFitOnLoad := false))
      ensures old(skipFitOnLoad) ==>
        view == ClampView(env, old(view).zoom, Some(old(view).offset)) && UiState() == old(UiState())
      ensures Hist() == old(Hist()) && idCounter == old(idCounter)
    {
      if !skipFitOnLoad {
        FitToWindow(env);
      } else {
        ClampAndSet(env, view.zoom, Some(view.offset));
      }
    }
  }

  /** The restore effect's scan: the largest n over the ids `a<n>` of the list, 0 when there is none. */
  method ScanMaxId(anns: seq<Annotation>) returns (maxIdNum: nat)
    ensures maxIdNum == MaxIdNumber(anns)
  {
    maxIdNum := 0;
    var i := 0;
    while i < |anns|
      invariant 0 <= i <= |anns|
      invariant maxIdNum == MaxIdNumber(anns[..i])
    {
      assert anns[..i + 1][..i] == anns[..i];
      var m := IdNumber(anns[i].id);
      if m.Some? && m.value > maxIdNum {
        maxIdNum := m.value;
      }
      i := i + 1;
    }
    assert anns[..i] == anns;
  }

  /** `{ ...before, text, color }` for a label; a measurement keeps its own fields. */
  function Relabelled(a: Annotation, text: string, color: string): (b: Annotation)
    ensures b.id == a.id
    ensures a.Label? ==> b == a.(text := text, color := color)
  {
    if a.Label? then a.(text := text, color := color) else a
  }
}
