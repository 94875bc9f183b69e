/** The editing state machine: the keyboard and mouse handlers over the
    editor's globals. The globals are gathered in `Globals`; each handler is a
    function from the state before the event to the state after it, and the
    `CurvesEditor` class below performs the same updates in place on fields.

    Positions stand for the `Freeform*` pointers of the source: a curve is
    identified by its position in `curves`, and `selectedCurve == -1` is the
    null pointer. This is sound because every removal of a curve also sets
    `selectedCurve` to null and curves never change order. */
module Editor {
  import opened Geometry
  import opened Vectors
  import opened Freeform
  import opened Container

  /** An `unsigned char` key code. */
  type Key = c: char | c as int < 256 witness 'a'

  /** The globals of the editor, as one value. */
  datatype Globals = Globals(
    curves: seq<Curve>,
    keysPressed: seq<bool>,
    drawing: bool,
    addingPoints: bool,
    deletingPoints: bool,
    movingAPoint: bool,
    currSelectedCurve: int,
    controlPointVal: int,
    globalCounter: int,
    selectedCurve: int)

  /** The invariant every handler keeps: the key table has its 256 entries,
      `globalCounter` is the position of the last curve, the selected curve
      is null or a curve of the list, `currSelectedCurve` is -1, a position
      of the list, or the initial 0 of an empty list, and every curve is in
      step with its knots. */
  predicate ValidState(s: Globals)
  {
    |s.keysPressed| == 256 &&
    s.globalCounter == |s.curves| - 1 &&
    -1 <= s.selectedCurve < |s.curves| &&
    -1 <= s.currSelectedCurve && (s.currSelectedCurve < |s.curves| || s.currSelectedCurve == 0) &&
    AllCurvesValid(s.curves)
  }

  /** The state at start-up: no curves, no key down, every flag off,
      `globalCounter == -1`, a null selection, and the two uninitialised
      `int` globals at the zero of static storage. */
  function Initial(): (s: Globals)
    ensures ValidState(s)
  {
    Globals([], seq(256, _ => false), false, false, false, false, 0, 0, -1, -1)
  }

  /** `selectedCurve->setUnSelected()` when the selection is not null. */
  function Unselect(curves: seq<Curve>, selected: int): (r: seq<Curve>)
    requires -1 <= selected < |curves|
    ensures |r| == |curves|
    ensures forall i :: 0 <= i < |curves| ==>
      r[i] == if i == selected then SetUnSelected(curves[i]) else curves[i]
  {
    if selected == -1 then curves else curves[selected := SetUnSelected(curves[selected])]
  }

  // ---------------------------------------------------------------- keys

  /** The shared body of the 'b', 'l' and 'p' cases: unselect, append a new
      curve of the kind, and make it the selection being drawn. */
  function Create(s: Globals, kind: Kind): Globals
    requires -1 <= s.selectedCurve < |s.curves| && s.globalCounter == |s.curves| - 1
  {
    var curves := Unselect(s.curves, s.selectedCurve) + [NewCurve(kind)];
    s.(curves := curves, globalCounter := s.globalCounter + 1,
       selectedCurve := s.globalCounter + 1, currSelectedCurve := s.globalCounter + 1,
       drawing := true)
  }

  /** The space case: with a selection, move it to the curve after
      `currSelectedCurve`, wrapping to the first curve after the last. The
      source's branch for a null selection tests the selection again and can
      never act, so without a selection nothing changes. */
  function Cycle(s: Globals): Globals
    requires -1 <= s.selectedCurve < |s.curves| && -1 <= s.currSelectedCurve
  {
    if s.selectedCurve == -1 then s
    else
      var next := if s.currSelectedCurve + 1 <= |s.curves| - 1 then s.currSelectedCurve + 1 else 0;
      s.(curves := Unselect(s.curves, s.selectedCurve), currSelectedCurve := next, selectedCurve := next)
  }

  /** What `onKeyboard` does with a key that was not down, once it is
      marked down. */
  function KeyAction(s: Globals, key: Key): Globals
    requires ValidState(s)
  {
    if key == 'b' then Create(s, BezierKind)
    else if key == 'l' then Create(s, LagrangeKind)
    else if key == 'p' then Create(s, PolylineKind)
    else if key == 'd' then
      if s.selectedCurve != -1 then s.(deletingPoints := true) else s
    else if key == ' ' then Cycle(s)
    else if key == 'a' then
      // `curves.at(0)` is defined: a non-null selection means a curve
      if s.selectedCurve != -1 then s.(drawing := false, addingPoints := true) else s
    else s
  }

  /** The key table with `key` marked down. */
  function Press(s: Globals, key: Key): (r: Globals)
    requires ValidState(s)
    ensures ValidState(r)
  {
    s.(keysPressed := s.keysPressed[key as int := true])
  }

  /** `onKeyboard`: a key already down is ignored; otherwise it is marked
      down and acted on. */
  function KeyDown(s: Globals, key: Key): Globals
    requires ValidState(s)
  {
    if s.keysPressed[key as int] then s else KeyAction(Press(s, key), key)
  }

  /** `onKeyboardUp`: the key is released, the three mode flags are reset,
      and the last curve is removed when it has fewer than two control
      points, which also clears the selection. */
  function KeyUp(s: Globals, key: Key): Globals
    requires ValidState(s)
  {
    var s := s.(keysPressed := s.keysPressed[key as int := false],
                drawing := false, addingPoints := false, deletingPoints := false);
    if |s.curves| > 0 && |s.curves[s.globalCounter].controlPoints| < 2 then
      s.(curves := RemoveAt(s.curves, s.globalCounter), globalCounter := s.globalCounter - 1,
         currSelectedCurve := -1, selectedCurve := -1)
    else s
  }

  // --------------------------------------------------------------- mouse

  /** The drawing block of a click: the point goes onto the curve at
      `globalCounter`, which becomes the selection. */
  function DrawStep(s: Globals, x: real, y: real): Globals
    requires 0 <= s.globalCounter < |s.curves|
  {
    var c := s.curves[s.globalCounter];
    s.(curves := s.curves[s.globalCounter := WithPoints(c, c.controlPoints + [Point(x, y)])],
       selectedCurve := s.globalCounter)
  }

  /** The adding block of a click: the point goes onto the selected curve. */
  function AddStep(s: Globals, x: real, y: real): Globals
    requires 0 <= s.selectedCurve < |s.curves|
  {
    var c := s.curves[s.selectedCurve];
    s.(curves := s.curves[s.selectedCurve := WithPoints(c, c.controlPoints + [Point(x, y)])])
  }

  /** The selected curve after the deleting block has erased the first of
      its control points near the cursor, if there is one. */
  function AfterErase(c: Curve, x: real, y: real): Curve
  {
    var k := FirstNear(c.controlPoints, x, y, 0);
    if k != -1 then WithPoints(c, RemoveAt(c.controlPoints, k)) else c
  }

  /** The deleting block needs a selection and, when the selected curve is
      left with fewer than two points, a `currSelectedCurve` that is a
      position of the list: the source erases the curve at that position,
      whichever curve is selected, and a -1 there is undefined behaviour. */
  predicate DeleteDefined(s: Globals, x: real, y: real)
  {
    0 <= s.selectedCurve < |s.curves| &&
    (|AfterErase(s.curves[s.selectedCurve], x, y).controlPoints| < 2 ==>
       0 <= s.currSelectedCurve < |s.curves|)
  }

  /** The first half of the deleting block: the erase on the selection. */
  function EraseStep(s: Globals, x: real, y: real): Globals
    requires 0 <= s.selectedCurve < |s.curves|
  {
    s.(curves := s.curves[s.selectedCurve := AfterErase(s.curves[s.selectedCurve], x, y)])
  }

  /** The removal that a selection left with fewer than two control points
      brings about: the curve at `currSelectedCurve` goes, and the selection
      with it. */
  predicate RemovalDefined(s: Globals)
  {
    0 <= s.selectedCurve < |s.curves| &&
    (|s.curves[s.selectedCurve].controlPoints| < 2 ==> 0 <= s.currSelectedCurve < |s.curves|)
  }

  function RemoveIfShort(s: Globals): Globals
    requires RemovalDefined(s)
  {
    if |s.curves[s.selectedCurve].controlPoints| < 2 then
      s.(curves := RemoveAt(s.curves, s.currSelectedCurve), currSelectedCurve := -1,
         globalCounter := s.globalCounter - 1, selectedCurve := -1)
    else s
  }

  /** The deleting block of a click. */
  function DeleteStep(s: Globals, x: real, y: real): Globals
    requires DeleteDefined(s, x, y)
  {
    assert RemovalDefined(EraseStep(s, x, y));
    RemoveIfShort(EraseStep(s, x, y))
  }

  /** The first half of the selecting block: the first curve under the
      cursor becomes the selection; with none, the old selection is
      unselected and `currSelectedCurve` is cleared but `selectedCurve`
      stays. */
  function Reselect(s: Globals, x: real, y: real): Globals
    requires -1 <= s.selectedCurve < |s.curves| && AllCurvesValid(s.curves) && ScanDefined(s.curves, x, y)
  {
    var returnVal := FirstHit(s.curves, x, y, 0);
    s.(curves := Unselect(s.curves, s.selectedCurve),
       selectedCurve := if returnVal != -1 then returnVal else s.selectedCurve,
       currSelectedCurve := if returnVal != -1 then returnVal
                            else if s.selectedCurve != -1 then -1 else s.currSelectedCurve)
  }

  /** The second half: a control point of the selection near the cursor
      becomes `controlPointVal` and starts a drag. */
  function PickPoint(s: Globals, x: real, y: real): Globals
    requires -1 <= s.selectedCurve < |s.curves|
  {
    if s.selectedCurve == -1 then s
    else
      var near := FirstNear(s.curves[s.selectedCurve].controlPoints, x, y, 0);
      s.(controlPointVal := near, movingAPoint := s.movingAPoint || near != -1)
  }

  /** The selecting block of a click, which does nothing without curves. */
  function SelectStep(s: Globals, x: real, y: real): Globals
    requires -1 <= s.selectedCurve < |s.curves| && AllCurvesValid(s.curves) && ScanDefined(s.curves, x, y)
  {
    if |s.curves| == 0 then s else PickPoint(Reselect(s, x, y), x, y)
  }

  /** The state after the drawing block, when it runs. */
  function AfterDraw(s: Globals, x: real, y: real): Globals
    requires s.drawing ==> 0 <= s.globalCounter < |s.curves|
  {
    if s.drawing then DrawStep(s, x, y) else s
  }

  /** The state after the adding block, when it runs. */
  function AfterAdd(s: Globals, x: real, y: real): Globals
    requires s.addingPoints ==> 0 <= s.selectedCurve < |s.curves|
  {
    if s.addingPoints then AddStep(s, x, y) else s
  }

  /** A click runs without a fault: the drawing block needs a curve at
      `globalCounter`, the adding block a selection, the deleting block what
      `DeleteDefined` says, and the selecting block a hit test that reaches
      only curves it can test: the scan stops at the first curve under the
      cursor, and a polyline without points that it does reach throws.
      Otherwise the source throws from `vector::at`, dereferences null, or
      erases outside the list. */
  predicate MouseDownDefined(s: Globals, x: real, y: real)
    requires ValidState(s)
  {
    (s.drawing ==> |s.curves| >= 1) &&
    var s1 := AfterDraw(s, x, y);
    (s1.addingPoints ==> s1.selectedCurve != -1) &&
    var s2 := AfterAdd(s1, x, y);
    (s2.deletingPoints ==> DeleteDefined(s2, x, y)) &&
    (!s2.deletingPoints && !s2.drawing ==> ScanDefined(s2.curves, x, y))
  }

  /** `onMouse` with the button going down. The adding block is not chained
      with the others, so a click that adds a point goes on to the deleting
      or selecting block in the same call. */
  function MouseDown(s: Globals, x: real, y: real): Globals
    requires ValidState(s) && MouseDownDefined(s, x, y)
  {
    var s1 := AfterDraw(s, x, y);
    AfterDrawValid(s, x, y);
    var s2 := AfterAdd(s1, x, y);
    AfterAddValid(s1, x, y);
    if s2.deletingPoints then DeleteStep(s2, x, y)
    else if !s2.drawing then SelectStep(s2, x, y)
    else s2
  }

  /** A drag writes to a control point that exists. */
  predicate MoveDefined(s: Globals)
  {
    s.movingAPoint ==>
      0 <= s.selectedCurve < |s.curves| &&
      0 <= s.controlPointVal < |s.curves[s.selectedCurve].controlPoints|
  }

  /** The write of a drag: control point `controlPointVal` of the selected
      curve moves to the cursor. */
  function MovePoint(s: Globals, x: real, y: real): Globals
    requires s.movingAPoint && MoveDefined(s)
  {
    var c := s.curves[s.selectedCurve];
    s.(curves := s.curves[s.selectedCurve := SetNewControlPointValue(c, s.controlPointVal, Point(x, y))])
  }

  /** `onMouse` with the button coming up: a drag leaves its point at the
      cursor and ends. */
  function MouseUp(s: Globals, x: real, y: real): Globals
    requires MoveDefined(s)
  {
    if s.movingAPoint then MovePoint(s, x, y).(movingAPoint := false) else s
  }

  /** `onMouseMotionFunc`: during a drag the point follows the cursor. */
  function MouseMotion(s: Globals, x: real, y: real): Globals
    requires MoveDefined(s)
  {
    if s.movingAPoint then MovePoint(s, x, y) else s
  }

  /** The button state GLUT passes to `onMouse`. */
  datatype ButtonState = Down | Up

  /** `onMouse`: the down and the up handling. */
  function Mouse(s: Globals, state: ButtonState, x: real, y: real): Globals
    requires ValidState(s)
    requires state == Down ==> MouseDownDefined(s, x, y)
    requires state == Up ==> MoveDefined(s)
  {
    if state == Down then MouseDown(s, x, y) else MouseUp(s, x, y)
  }

  // ------------------------------------------------- the invariant is kept

  lemma UnselectValid(curves: seq<Curve>, selected: int)
    requires -1 <= selected < |curves| && AllCurvesValid(curves)
    ensures AllCurvesValid(Unselect(curves, selected))
  {
  }

  lemma UpdateValid(curves: seq<Curve>, i: nat, c: Curve)
    requires i < |curves| && AllCurvesValid(curves) && CurveValid(c)
    ensures AllCurvesValid(curves[i := c])
  {
  }

  lemma RemoveValid(curves: seq<Curve>, i: nat)
    requires i < |curves| && AllCurvesValid(curves)
    ensures AllCurvesValid(RemoveAt(curves, i))
  {
  }

  lemma CreateValid(s: Globals, kind: Kind)
    requires ValidState(s)
    ensures ValidState(Create(s, kind))
  {
    UnselectValid(s.curves, s.selectedCurve);
    NewCurveValid(kind);
    var curves := Unselect(s.curves, s.selectedCurve) + [NewCurve(kind)];
    assert AllCurvesValid(curves) by {
      forall i | 0 <= i < |curves| ensures CurveValid(curves[i]) {
        if i < |s.curves| {
          assert curves[i] == Unselect(s.curves, s.selectedCurve)[i];
        }
      }
    }
  }

  lemma CycleValid(s: Globals)
    requires ValidState(s)
    ensures ValidState(Cycle(s))
  {
    UnselectValid(s.curves, s.selectedCurve);
  }

  lemma KeyActionValid(s: Globals, key: Key)
    requires ValidState(s)
    ensures ValidState(KeyAction(s, key))
  {
    if key == 'b' {
      CreateValid(s, BezierKind);
    } else if key == 'l' {
      CreateValid(s, LagrangeKind);
    } else if key == 'p' {
      CreateValid(s, PolylineKind);
    } else if key == ' ' {
      CycleValid(s);
    }
  }

  /** Every key press keeps the invariant. */
  lemma KeyDownValid(s: Globals, key: Key)
    requires ValidState(s)
    ensures ValidState(KeyDown(s, key))
  {
    if !s.keysPressed[key as int] {
      KeyActionValid(Press(s, key), key);
    }
  }

  /** Every key release keeps the invariant. */
  lemma KeyUpValid(s: Globals, key: Key)
    requires ValidState(s)
    ensures ValidState(KeyUp(s, key))
  {
    if |s.curves| > 0 {
      RemoveValid(s.curves, s.globalCounter);
    }
  }

  lemma AfterDrawValid(s: Globals, x: real, y: real)
    requires ValidState(s) && (s.drawing ==> |s.curves| >= 1)
    ensures ValidState(AfterDraw(s, x, y))
    ensures AfterDraw(s, x, y).drawing == s.drawing
    ensures AfterDraw(s, x, y).addingPoints == s.addingPoints
    ensures AfterDraw(s, x, y).deletingPoints == s.deletingPoints
  {
    if s.drawing {
      var c := s.curves[s.globalCounter];
      WithPointsValid(c, c.controlPoints + [Point(x, y)]);
      UpdateValid(s.curves, s.globalCounter, WithPoints(c, c.controlPoints + [Point(x, y)]));
    }
  }

  lemma AfterAddValid(s: Globals, x: real, y: real)
    requires ValidState(s) && (s.addingPoints ==> s.selectedCurve != -1)
    ensures ValidState(AfterAdd(s, x, y))
    ensures AfterAdd(s, x, y).drawing == s.drawing
    ensures AfterAdd(s, x, y).deletingPoints == s.deletingPoints
  {
    if s.addingPoints {
      var c := s.curves[s.selectedCurve];
      WithPointsValid(c, c.controlPoints + [Point(x, y)]);
      UpdateValid(s.curves, s.selectedCurve, WithPoints(c, c.controlPoints + [Point(x, y)]));
    }
  }

  lemma AfterEraseValid(c: Curve, x: real, y: real)
    requires CurveValid(c)
    ensures CurveValid(AfterErase(c, x, y))
  {
    var k := FirstNear(c.controlPoints, x, y, 0);
    if k != -1 {
      WithPointsValid(c, RemoveAt(c.controlPoints, k));
    }
  }

  lemma DeleteStepValid(s: Globals, x: real, y: real)
    requires ValidState(s) && DeleteDefined(s, x, y)
    ensures ValidState(DeleteStep(s, x, y))
  {
    AfterEraseValid(s.curves[s.selectedCurve], x, y);
    UpdateValid(s.curves, s.selectedCurve, AfterErase(s.curves[s.selectedCurve], x, y));
    var e := EraseStep(s, x, y);
    assert ValidState(e);
    if |e.curves[e.selectedCurve].controlPoints| < 2 {
      RemoveValid(e.curves, e.currSelectedCurve);
    }
  }

  lemma SelectStepValid(s: Globals, x: real, y: real)
    requires ValidState(s) && ScanDefined(s.curves, x, y)
    ensures ValidState(SelectStep(s, x, y))
  {
    UnselectValid(s.curves, s.selectedCurve);
  }

  lemma MovePointValid(s: Globals, x: real, y: real)
    requires ValidState(s) && s.movingAPoint && MoveDefined(s)
    ensures ValidState(MovePoint(s, x, y))
  {
    var c := s.curves[s.selectedCurve];
    SetNewControlPointValueValid(c, s.controlPointVal, Point(x, y));
    UpdateValid(s.curves, s.selectedCurve, SetNewControlPointValue(c, s.controlPointVal, Point(x, y)));
  }

  /** Every click that runs without a fault keeps the invariant. */
  lemma MouseDownValid(s: Globals, x: real, y: real)
    requires ValidState(s) && MouseDownDefined(s, x, y)
    ensures ValidState(MouseDown(s, x, y))
  {
    var s1 := AfterDraw(s, x, y);
    AfterDrawValid(s, x, y);
    var s2 := AfterAdd(s1, x, y);
    AfterAddValid(s1, x, y);
    if s2.deletingPoints {
      DeleteStepValid(s2, x, y);
    } else if !s2.drawing {
      SelectStepValid(s2, x, y);
    }
  }

  /** The end and the moves of a drag keep the invariant. */
  lemma MouseUpAndMotionValid(s: Globals, x: real, y: real)
    requires ValidState(s) && MoveDefined(s)
    ensures ValidState(MouseUp(s, x, y))
    ensures ValidState(MouseMotion(s, x, y))
  {
    if s.movingAPoint {
      MovePointValid(s, x, y);
    }
  }

  // ------------------------------------------------ what the handlers do

  /** A key that is already down is ignored by `onKeyboard`. */
  lemma KeyDownDebounced(s: Globals, key: Key)
    requires ValidState(s) && s.keysPressed[key as int]
    ensures KeyDown(s, key) == s
  {
  }

  /** After a press the key is down, after a release it is up, and no other
      entry of the table changes. */
  lemma KeyTableTracksKeys(s: Globals, key: Key)
    requires ValidState(s)
    ensures KeyDown(s, key).keysPressed == s.keysPressed[key as int := true]
    ensures KeyUp(s, key).keysPressed == s.keysPressed[key as int := false]
  {
  }

  /** The kind of curve a creation key makes, if it is one. */
  function KindOfKey(key: Key): (k: Kind)
    requires key == 'b' || key == 'l' || key == 'p'
    ensures CurveType(k) == if key == 'b' then 1 else if key == 'l' then 2 else 0
  {
    if key == 'b' then BezierKind else if key == 'l' then LagrangeKind else PolylineKind
  }

  /** A fresh 'b', 'l' or 'p' appends exactly one empty curve of type 1, 2
      or 0, selects it in both `selectedCurve` and `currSelectedCurve` and
      turns drawing on; the other curves keep their points, and only the old
      selection loses its `selected` flag. */
  lemma CreationKeys(s: Globals, key: Key)
    requires ValidState(s) && !s.keysPressed[key as int]
    requires key == 'b' || key == 'l' || key == 'p'
    ensures var r := KeyDown(s, key);
      |r.curves| == |s.curves| + 1 &&
      r.curves[|s.curves|] == NewCurve(KindOfKey(key)) &&
      CurveType(r.curves[|s.curves|].kind) == CurveType(KindOfKey(key)) &&
      (forall i :: 0 <= i < |s.curves| ==>
         r.curves[i] == if i == s.selectedCurve then SetUnSelected(s.curves[i]) else s.curves[i]) &&
      r.selectedCurve == |s.curves| && r.currSelectedCurve == |s.curves| &&
      r.globalCounter == |r.curves| - 1 && r.drawing
  {
  }

  /** With nothing selected, space only marks the key down. */
  lemma SpaceWithoutSelection(s: Globals)
    requires ValidState(s) && !s.keysPressed[' ' as int] && s.selectedCurve == -1
    ensures KeyDown(s, ' ') == s.(keysPressed := s.keysPressed[' ' as int := true])
  {
  }

  /** With a selection, space selects the curve after `currSelectedCurve`
      and wraps around after the last one; when the two selection globals
      agree this is the next curve in cyclic order. */
  lemma SpaceCycles(s: Globals)
    requires ValidState(s) && !s.keysPressed[' ' as int] && s.selectedCurve != -1
    ensures var r := KeyDown(s, ' ');
      r.selectedCurve == r.currSelectedCurve &&
      (r.selectedCurve == if s.currSelectedCurve + 1 < |s.curves| then s.currSelectedCurve + 1 else 0) &&
      (s.currSelectedCurve == s.selectedCurve ==> r.selectedCurve == (s.selectedCurve + 1) % |s.curves|) &&
      |r.curves| == |s.curves|
  {
    assert KeyDown(s, ' ') == Cycle(Press(s, ' '));
    if s.currSelectedCurve == s.selectedCurve {
      NextWraps(s.selectedCurve, |s.curves|);
    }
  }

  /** Stepping to the next position and wrapping after the last one is
      adding one modulo the length. */
  lemma NextWraps(i: int, n: int)
    requires 0 <= i < n
    ensures (if i + 1 <= n - 1 then i + 1 else 0) == (i + 1) % n
  {
  }

  /** Key release removes the last curve exactly when it has fewer than two
      control points, clearing the selection; otherwise no curve goes. */
  lemma KeyUpRemovesShortCurve(s: Globals, key: Key)
    requires ValidState(s) && |s.curves| > 0
    ensures var r := KeyUp(s, key);
      var short := |s.curves[|s.curves| - 1].controlPoints| < 2;
      (short ==> r.curves == s.curves[..|s.curves| - 1] && r.selectedCurve == -1 && r.currSelectedCurve == -1) &&
      (!short ==> r.curves == s.curves && r.selectedCurve == s.selectedCurve) &&
      !r.drawing && !r.addingPoints && !r.deletingPoints && r.movingAPoint == s.movingAPoint
  {
    RemoveLast(s.curves);
  }

  /** During a drag, a move of the mouse changes only the dragged control
      point: every global but the curve list stays as it was, and the dragged
      curve keeps its kind, knots and flag. The release leaves the point at
      the release position, ends the drag and changes nothing else. */
  lemma DragWritesOnlyTheDraggedPoint(s: Globals, x: real, y: real)
    requires ValidState(s) && s.movingAPoint && MoveDefined(s)
    ensures var r := MouseMotion(s, x, y);
      var u := MouseUp(s, x, y);
      var sel, k := s.selectedCurve, s.controlPointVal;
      r == s.(curves := r.curves) &&
      |r.curves| == |s.curves| &&
      (forall i :: 0 <= i < |s.curves| && i != sel ==> r.curves[i] == s.curves[i]) &&
      r.curves[sel].kind == s.curves[sel].kind &&
      r.curves[sel].knots == s.curves[sel].knots &&
      r.curves[sel].selected == s.curves[sel].selected &&
      |r.curves[sel].controlPoints| == |s.curves[sel].controlPoints| &&
      r.curves[sel].controlPoints[k] == Point(x, y) &&
      (forall j :: 0 <= j < |s.curves[sel].controlPoints| && j != k ==>
         r.curves[sel].controlPoints[j] == s.curves[sel].controlPoints[j]) &&
      MoveDefined(r) && r.movingAPoint &&
      u == r.(movingAPoint := false)
  {
  }

  /** A move of the mouse keeps a drag well defined. */
  lemma MotionKeepsMoveDefined(s: Globals, x: real, y: real)
    requires MoveDefined(s)
    ensures MoveDefined(MouseMotion(s, x, y))
    ensures MouseMotion(s, x, y).movingAPoint == s.movingAPoint
    ensures MouseMotion(s, x, y).selectedCurve == s.selectedCurve
    ensures MouseMotion(s, x, y).controlPointVal == s.controlPointVal
  {
  }

  /** Successive `onMouseMotionFunc` calls, one per cursor position of
      `path`. */
  function MotionPath(s: Globals, path: seq<Point>): Globals
    requires MoveDefined(s)
    decreases |path|
  {
    if path == [] then s
    else
      MotionKeepsMoveDefined(s, path[0].x, path[0].y);
      MotionPath(MouseMotion(s, path[0].x, path[0].y), path[1..])
  }

  /** However many moves a drag goes through, it keeps writing the same
      control point of the same curve: after the moves of `path` that point
      sits at the last cursor position, and the release at (x, y) leaves it
      there with nothing else of the state changed but the end of the drag. */
  lemma {:induction false} DragFollowsCursor(s: Globals, path: seq<Point>, x: real, y: real)
    requires s.movingAPoint && MoveDefined(s)
    ensures path != [] ==> MotionPath(s, path) == MovePoint(s, path[|path| - 1].x, path[|path| - 1].y)
    ensures path == [] ==> MotionPath(s, path) == s
    ensures MoveDefined(MotionPath(s, path)) && MotionPath(s, path).movingAPoint
    ensures MouseUp(MotionPath(s, path), x, y) == MovePoint(s, x, y).(movingAPoint := false)
    decreases |path|
  {
    if path != [] {
      var r := MouseMotion(s, path[0].x, path[0].y);
      MotionKeepsMoveDefined(s, path[0].x, path[0].y);
      DragFollowsCursor(r, path[1..], x, y);
      MoveTwice(s, path[0], path[|path| - 1]);
      MoveTwice(s, path[0], Point(x, y));
    }
  }

  /** A second write to the dragged point overrides the first. */
  lemma MoveTwice(s: Globals, p: Point, q: Point)
    requires s.movingAPoint && MoveDefined(s)
    ensures MoveDefined(MovePoint(s, p.x, p.y))
    ensures MovePoint(MovePoint(s, p.x, p.y), q.x, q.y) == MovePoint(s, q.x, q.y)
  {
    var sel, k := s.selectedCurve, s.controlPointVal;
    var c := s.curves[sel];
    assert c.controlPoints[k := p][k := q] == c.controlPoints[k := q];
  }

  /** Without a drag, moving the mouse or releasing the button changes
      nothing. */
  lemma NoDragNoChange(s: Globals, x: real, y: real)
    requires !s.movingAPoint
    ensures MouseMotion(s, x, y) == s && MouseUp(s, x, y) == s
  {
  }

  // ------------------------------------------------------- a short session

  /** While drawing (and neither adding nor deleting), a click only appends the cursor to the curve at
      `globalCounter`, which becomes the selection. */
  lemma ClickWhileDrawing(s: Globals, x: real, y: real)
    requires ValidState(s) && s.drawing && !s.addingPoints && !s.deletingPoints && |s.curves| >= 1
    ensures MouseDownDefined(s, x, y)
    ensures var r := MouseDown(s, x, y);
      r == DrawStep(s, x, y) &&
      |r.curves| == |s.curves| &&
      r.curves[s.globalCounter].controlPoints == s.curves[s.globalCounter].controlPoints + [Point(x, y)] &&
      r.curves[s.globalCounter].kind == s.curves[s.globalCounter].kind &&
      r.selectedCurve == s.globalCounter
  {
    var c := s.curves[s.globalCounter];
    WithPointsValid(c, c.controlPoints + [Point(x, y)]);
    assert AfterAdd(AfterDraw(s, x, y), x, y) == DrawStep(s, x, y);
  }

  /** While deleting, a click near a point of a selected two-point curve
      that is also `currSelectedCurve` removes that curve from the list and
      clears the selection. */
  lemma ClickDeletesTwoPointCurve(s: Globals, x: real, y: real)
    requires ValidState(s) && s.deletingPoints && !s.drawing && !s.addingPoints
    requires 0 <= s.selectedCurve == s.currSelectedCurve < |s.curves|
    requires |s.curves[s.selectedCurve].controlPoints| == 2
    requires FirstNear(s.curves[s.selectedCurve].controlPoints, x, y, 0) != -1
    ensures MouseDownDefined(s, x, y)
    ensures var r := MouseDown(s, x, y);
      r.curves == RemoveAt(s.curves, s.selectedCurve) &&
      r.selectedCurve == -1 && r.currSelectedCurve == -1 && r.globalCounter == |r.curves| - 1
  {
    var c := s.curves[s.selectedCurve];
    var k := FirstNear(c.controlPoints, x, y, 0);
    WithPointsValid(c, RemoveAt(c.controlPoints, k));
    assert |AfterErase(c, x, y).controlPoints| == 1;
    assert AfterAdd(AfterDraw(s, x, y), x, y) == s;
  }

  /** With no mode on, a click on a curve selects the first curve under the
      cursor in both selection globals, whatever lies after it in the list;
      a control point of it near the cursor starts a drag. */
  lemma ClickSelectsFirstHit(s: Globals, x: real, y: real)
    requires ValidState(s) && !s.drawing && !s.addingPoints && !s.deletingPoints
    requires ScanDefined(s.curves, x, y) && FirstHit(s.curves, x, y, 0) != -1
    ensures MouseDownDefined(s, x, y)
    ensures var r := MouseDown(s, x, y);
      var k := FirstHit(s.curves, x, y, 0);
      r.selectedCurve == k && r.currSelectedCurve == k && |r.curves| == |s.curves| &&
      r.controlPointVal == FirstNear(s.curves[k].controlPoints, x, y, 0) &&
      (r.controlPointVal != -1 ==> r.movingAPoint)
  {
    assert AfterAdd(AfterDraw(s, x, y), x, y) == s;
  }

  /** Press 'b', click at (0, 0) and at (0.5, 0.5), release 'b': a Bezier
      curve of those two points remains, selected. */
  lemma DrawSession()
    ensures var s4 := KeyUp(MouseDown(MouseDown(KeyDown(Initial(), 'b'), 0.0, 0.0), 0.5, 0.5), 'b');
      ValidState(s4) &&
      s4.curves == [Curve(BezierKind, [Point(0.0, 0.0), Point(0.5, 0.5)], [], false)] &&
      s4.selectedCurve == 0 && s4.currSelectedCurve == 0 && s4.globalCounter == 0 &&
      !s4.keysPressed['d' as int] && !s4.drawing && !s4.addingPoints && !s4.deletingPoints
  {
    var s0 := Initial();
    var s1 := KeyDown(s0, 'b');
    KeyDownValid(s0, 'b');
    assert s1.curves == [NewCurve(BezierKind)] && s1.drawing && !s1.addingPoints && !s1.deletingPoints;
    var s2 := MouseDown(s1, 0.0, 0.0);
    ClickWhileDrawing(s1, 0.0, 0.0);
    MouseDownValid(s1, 0.0, 0.0);
    assert [] + [Point(0.0, 0.0)] == [Point(0.0, 0.0)];
    assert s2.curves == [WithPoints(NewCurve(BezierKind), [Point(0.0, 0.0)])];
    var s3 := MouseDown(s2, 0.5, 0.5);
    ClickWhileDrawing(s2, 0.5, 0.5);
    MouseDownValid(s2, 0.5, 0.5);
    assert [Point(0.0, 0.0)] + [Point(0.5, 0.5)] == [Point(0.0, 0.0), Point(0.5, 0.5)];
    assert s3.curves == [WithPoints(s2.curves[0], [Point(0.0, 0.0), Point(0.5, 0.5)])];
    KeyUpValid(s3, 'b');
  }

  /** After that, press 'd' and click at (0, 0): the point is erased, the
      curve is left with one point and is removed, and the selection is
      cleared. */
  lemma DeleteSession(s4: Globals)
    requires ValidState(s4)
    requires s4.curves == [Curve(BezierKind, [Point(0.0, 0.0), Point(0.5, 0.5)], [], false)]
    requires s4.selectedCurve == 0 && s4.currSelectedCurve == 0
    requires !s4.keysPressed['d' as int] && !s4.drawing && !s4.addingPoints
    ensures var s5 := KeyDown(s4, 'd');
      ValidState(s5) && s5.deletingPoints && MouseDownDefined(s5, 0.0, 0.0) &&
      var s6 := MouseDown(s5, 0.0, 0.0);
      s6.curves == [] && s6.selectedCurve == -1 && s6.globalCounter == -1
  {
    var s5 := KeyDown(s4, 'd');
    KeyDownValid(s4, 'd');
    assert s5 == Press(s4, 'd').(deletingPoints := true);
    assert Near(s5.curves[0].controlPoints[0], 0.0, 0.0);
    ClickDeletesTwoPointCurve(s5, 0.0, 0.0);
  }

  /** The two together: drawing a two-point curve and deleting one of its
      points leaves no curve. */
  lemma DrawThenDeleteSession()
    ensures var s4 := KeyUp(MouseDown(MouseDown(KeyDown(Initial(), 'b'), 0.0, 0.0), 0.5, 0.5), 'b');
      var s5 := KeyDown(s4, 'd');
      ValidState(s5) && MouseDownDefined(s5, 0.0, 0.0) &&
      MouseDown(s5, 0.0, 0.0).curves == []
  {
    var s4 := KeyUp(MouseDown(MouseDown(KeyDown(Initial(), 'b'), 0.0, 0.0), 0.5, 0.5), 'b');
    DrawSession();
    DeleteSession(s4);
  }

  // --------------------------------------------------------------- class

  /** The editor's globals as the fields of one object, with the handlers
      as its methods. `keysPressed` is the fixed table of 256 flags. */
  class CurvesEditor {
    var curves: seq<Curve>
    const keysPressed: array<bool>
    var drawing: bool
    var addingPoints: bool
    var deletingPoints: bool
    var movingAPoint: bool
    var currSelectedCurve: int
    var controlPointVal: int
    var globalCounter: int
    var selectedCurve: int

    /** The globals as one value. */
    function State(): Globals
      reads this, keysPressed
    {
      Globals(curves, keysPressed[..], drawing, addingPoints, deletingPoints, movingAPoint,
                   currSelectedCurve, controlPointVal, globalCounter, selectedCurve)
    }

    predicate Valid()
      reads this, keysPressed
    {
      ValidState(State())
    }

    /** The globals' initialisers. */
    constructor ()
      ensures State() == Initial() && Valid()
    {
      curves := [];
      keysPressed := new bool[256](_ => false);
      drawing, addingPoints, deletingPoints, movingAPoint := false, false, false, false;
      currSelectedCurve, controlPointVal := 0, 0;
      globalCounter := -1;
      selectedCurve := -1;
    }

    /** `CurvesContainer::addCurve`: appends a curve to the list. */
    method AddCurve(c: Curve)
      modifies this
      ensures State() == old(State()).(curves := old(curves) + [c])
    {
      curves := curves + [c];
    }

    /** `selectedCurve->setUnSelected()` on a non-null selection. */
    method UnselectSelected()
      requires 0 <= selectedCurve < |curves|
      modifies this
      ensures State() == old(State()).(curves := Unselect(old(curves), old(selectedCurve)))
    {
      curves := curves[selectedCurve := SetUnSelected(curves[selectedCurve])];
    }

    /** The 'b', 'l' and 'p' cases of `onKeyboard`. */
    method CreateCurve(kind: Kind)
      requires -1 <= selectedCurve < |curves| && globalCounter == |curves| - 1
      modifies this
      ensures State() == Create(old(State()), kind)
    {
      if selectedCurve != -1 {
        UnselectSelected();
      }
      AddCurve(NewCurve(kind));
      globalCounter := globalCounter + 1;
      selectedCurve := globalCounter;
      currSelectedCurve := globalCounter;
      drawing := true;
    }

    /** The space case of `onKeyboard`. */
    method CycleSelection()
      requires -1 <= selectedCurve < |curves| && -1 <= currSelectedCurve
      modifies this
      ensures State() == Cycle(old(State()))
    {
      if selectedCurve != -1 {
        UnselectSelected();
        if currSelectedCurve + 1 <= |curves| - 1 {
          currSelectedCurve := currSelectedCurve + 1;
          selectedCurve := currSelectedCurve;
        } else {
          selectedCurve := 0;
          currSelectedCurve := 0;
        }
      }
    }

    /** The `switch` of `onKeyboard`, once the key is marked down. */
    method Act(key: Key)
      requires Valid()
      modifies this
      ensures State() == KeyAction(old(State()), key)
    {
      if key == 'b' {
        CreateCurve(BezierKind);
      } else if key == 'l' {
        CreateCurve(LagrangeKind);
      } else if key == 'p' {
        CreateCurve(PolylineKind);
      } else if key == 'd' {
        if selectedCurve != -1 {
          deletingPoints := true;
        }
      } else if key == ' ' {
        CycleSelection();
      } else if key == 'a' {
        if selectedCurve != -1 {
          drawing := false;
          addingPoints := true;
        }
      }
    }

    /** `onKeyboard`. */
    method OnKeyboard(key: Key)
      requires Valid()
      modifies this, keysPressed
      ensures State() == KeyDown(old(State()), key) && Valid()
    {
      KeyDownValid(State(), key);
      if keysPressed[key as int] == false {
        keysPressed[key as int] := true;
        assert State() == Press(old(State()), key);
        Act(key);
      }
    }

    /** `onKeyboardUp`. */
    method OnKeyboardUp(key: Key)
      requires Valid()
      modifies this, keysPressed
      ensures State() == KeyUp(old(State()), key) && Valid()
    {
      KeyUpValid(State(), key);
      keysPressed[key as int] := false;
      drawing := false;
      addingPoints := false;
      deletingPoints := false;
      if |curves| > 0 {
        var checkCtrlPtNum := curves[globalCounter];
        var controlPointsSize := |checkCtrlPtNum.controlPoints|;
        if controlPointsSize < 2 {
          curves := curves[..globalCounter] + curves[globalCounter + 1..];
          globalCounter := globalCounter - 1;
          currSelectedCurve := -1;
          selectedCurve := -1;
        }
      }
    }

    /** The drawing block of `onMouse`. */
    method Draw(x: real, y: real)
      requires 0 <= globalCounter < |curves|
      modifies this
      ensures State() == DrawStep(old(State()), x, y)
    {
      var curvePointer := AddControlPoint(curves[globalCounter], Point(x, y));
      curves := curves[globalCounter := curvePointer];
      selectedCurve := globalCounter;
    }

    /** The adding block of `onMouse`. */
    method Add(x: real, y: real)
      requires 0 <= selectedCurve < |curves|
      modifies this
      ensures State() == AddStep(old(State()), x, y)
    {
      var c := AddControlPoint(curves[selectedCurve], Point(x, y));
      curves := curves[selectedCurve := c];
    }

    /** The erase in the deleting block of `onMouse`. */
    method EraseNearPoint(x: real, y: real)
      requires 0 <= selectedCurve < |curves|
      modifies this
      ensures State() == EraseStep(old(State()), x, y)
    {
      var c := curves[selectedCurve];
      var pointToDelete := GetControlPointNearMouse(c.controlPoints, x, y);
      if pointToDelete != -1 {
        c := EraseControlPoint(c, pointToDelete);
      }
      curves := curves[selectedCurve := c];
    }

    /** The removal in the deleting block of `onMouse`. */
    method RemoveShortSelection()
      requires RemovalDefined(State())
      modifies this
      ensures State() == RemoveIfShort(old(State()))
    {
      if |curves[selectedCurve].controlPoints| < 2 {
        curves := curves[..currSelectedCurve] + curves[currSelectedCurve + 1..];
        currSelectedCurve := -1;
        globalCounter := globalCounter - 1;
        selectedCurve := -1;
      }
    }

    /** The deleting block of `onMouse`. */
    method Delete(x: real, y: real)
      requires DeleteDefined(State(), x, y)
      modifies this
      ensures State() == DeleteStep(old(State()), x, y)
    {
      EraseNearPoint(x, y);
      RemoveShortSelection();
    }

    /** The curve hit test in the selecting block of `onMouse`. */
    method ReselectCurve(x: real, y: real)
      requires -1 <= selectedCurve < |curves| && AllCurvesValid(curves) && ScanDefined(curves, x, y)
      modifies this
      ensures State() == Reselect(old(State()), x, y)
    {
      var returnVal := CheckMouseCurves(curves, x, y);
      if selectedCurve != -1 {
        UnselectSelected();
        currSelectedCurve := -1;
      }
      if returnVal != -1 {
        selectedCurve := returnVal;
        currSelectedCurve := returnVal;
      } else if selectedCurve != -1 {
        // the source unselects again here, which changes nothing more
        currSelectedCurve := -1;
      }
    }

    /** The control point hit test in the selecting block of `onMouse`. */
    method PickControlPoint(x: real, y: real)
      requires -1 <= selectedCurve < |curves|
      modifies this
      ensures State() == PickPoint(old(State()), x, y)
    {
      if selectedCurve != -1 {
        controlPointVal := GetControlPointNearMouse(curves[selectedCurve].controlPoints, x, y);
        if controlPointVal != -1 {
          movingAPoint := true;
        }
      }
    }

    /** The selecting block of `onMouse`. */
    method Select(x: real, y: real)
      requires -1 <= selectedCurve < |curves| && AllCurvesValid(curves) && ScanDefined(curves, x, y)
      modifies this
      ensures State() == SelectStep(old(State()), x, y)
    {
      if |curves| > 0 {
        ReselectCurve(x, y);
        PickControlPoint(x, y);
      }
    }

    /** The down half of `onMouse`. */
    method MouseDownHandler(x: real, y: real)
      requires Valid() && MouseDownDefined(State(), x, y)
      modifies this
      ensures State() == MouseDown(old(State()), x, y) && Valid()
    {
      MouseDownValid(State(), x, y);
      ghost var s0 := State();
      AfterDrawValid(s0, x, y);
      if drawing {
        Draw(x, y);
      }
      ghost var s1 := State();
      assert s1 == AfterDraw(s0, x, y);
      AfterAddValid(s1, x, y);
      if addingPoints {
        Add(x, y);
      }
      assert State() == AfterAdd(s1, x, y);
      if deletingPoints {
        Delete(x, y);
      } else if drawing == false {
        Select(x, y);
      }
    }

    /** The up half of `onMouse`. */
    method MouseUpHandler(x: real, y: real)
      requires Valid() && MoveDefined(State())
      modifies this
      ensures State() == MouseUp(old(State()), x, y) && Valid()
    {
      MouseUpAndMotionValid(State(), x, y);
      if movingAPoint {
        curves := curves[selectedCurve := SetNewControlPointValue(curves[selectedCurve], controlPointVal, Point(x, y))];
        movingAPoint := false;
      }
    }

    /** `onMouse`; the button and the viewport are not modelled, and the
        cursor comes already normalised. */
    method OnMouse(state: ButtonState, x: real, y: real)
      requires Valid()
      requires state == Down ==> MouseDownDefined(State(), x, y)
      requires state == Up ==> MoveDefined(State())
      modifies this
      ensures State() == Mouse(old(State()), state, x, y) && Valid()
    {
      if state == Down {
        MouseDownHandler(x, y);
      }
      if state == Up {
        MouseUpHandler(x, y);
      }
    }

    /** `onMouseMotionFunc`. */
    method OnMouseMotionFunc(x: real, y: real)
      requires Valid() && MoveDefined(State())
      modifies this
      ensures State() == MouseMotion(old(State()), x, y) && Valid()
    {
      MouseUpAndMotionValid(State(), x, y);
      if movingAPoint {
        curves := curves[selectedCurve := SetNewControlPointValue(curves[selectedCurve], controlPointVal, Point(x, y))];
      }
    }
  }
}
