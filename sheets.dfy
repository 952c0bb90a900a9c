/**
 * The sheet of an `eecalc` page (public/main.js:195-465) as a value, and each
 * operation of the page as a function from the old sheet to the new one.
 *
 * The page keeps its cells as DOM elements under one container; a cell here
 * is the record of what the code reads and writes on such an element: the
 * input's text, the output shown, the `data-deleting` marker and the
 * `data-index` and `tabindex` attributes.  An element is known by its `id`,
 * which stands for the identity of the DOM node: the completion of a removal
 * animation and the keyboard focus refer to a node, not to a position.
 *
 * The expression evaluator `math.eval` is a parameter `ev`: it maps the
 * rewritten text and the current scope to an outcome and a new scope.  The
 * socket is the sequence `sent` of events emitted.  A removal animation that
 * has started is an entry of `pending`; `CompleteRemoval` is the step that
 * fires when it ends.
 */
module Sheets {
  datatype Option<T> = None | Some(value: T)

  /** A result as the output element shows it. */
  type Value = string

  /** The variables the evaluator reads and assigns. */
  type Scope = map<string, Value>

  /** What `math.eval` does with a text: returns a value, returns
      `undefined` or `null` (the loose `result != undefined` test treats
      both alike, so `Undefined` stands for either), or throws. */
  datatype Outcome = Defined(value: Value) | Undefined | Raised(message: string)

  datatype Evaluation = Evaluation(outcome: Outcome, scope: Scope)

  /** A rewrite of the input text that leaves the empty text empty, as
      `ee_parse` does (`EeNotation.EeParseEmpty`). */
  type Rewriter = f: string -> string | f("") == "" witness (t: string) => t

  /** What `calculate_cell` applies to a cell's text: `ee_parse`, then
      `math.eval(text, scope)`, which may also assign to the scope. */
  datatype Evaluator = Evaluator(parse: Rewriter, eval: (string, Scope) -> Evaluation)

  /** The content of a cell's output element.  `ShownUndefined` is what
      `innerHTML = result` leaves for an `Undefined` result: the text
      `undefined`, or the empty text for `null`. */
  datatype Output = Blank | Shown(value: Value) | ShownUndefined | ShownError(message: string)

  datatype Cell = Cell(id: nat, text: string, output: Output, deleting: bool, index: int, tabindex: int)

  /** A message emitted on the socket. */
  datatype Event = EditEvent(number: int, content: string) | DeleteEvent(number: int)

  /** A removal animation under way: the element it removes, and the index
      `delete_cell` was called with, which the completion uses to refocus. */
  datatype Removal = Removal(cell: nat, index: int)

  datatype Sheet = Sheet(
    cells: seq<Cell>,
    cellCount: int,
    focused: Option<nat>,
    scope: Scope,
    sent: seq<Event>,
    pending: seq<Removal>,
    nextId: nat)

  function Texts(cs: seq<Cell>): (ts: seq<string>)
    ensures |ts| == |cs| && forall k :: 0 <= k < |cs| ==> ts[k] == cs[k].text
  {
    seq(|cs|, k requires 0 <= k < |cs| => cs[k].text)
  }

  // ---------------------------------------------------------------------
  // The invariant every reachable sheet keeps.
  // ---------------------------------------------------------------------

  /** Each cell's `data-index` is its position and its `tabindex` one more. */
  predicate Numbered(cs: seq<Cell>)
  {
    forall p :: 0 <= p < |cs| ==> cs[p].index == p && cs[p].tabindex == p + 1
  }

  predicate IsPending(pending: seq<Removal>, id: nat)
  {
    exists j :: 0 <= j < |pending| && pending[j].cell == id
  }

  predicate DistinctIds(cs: seq<Cell>)
  {
    forall p, q :: 0 <= p < q < |cs| ==> cs[p].id != cs[q].id
  }

  predicate IdsBelow(cs: seq<Cell>, bound: nat)
  {
    forall p :: 0 <= p < |cs| ==> cs[p].id < bound
  }

  predicate PendingBelow(pending: seq<Removal>, bound: nat)
  {
    forall j :: 0 <= j < |pending| ==> pending[j].cell < bound
  }

  /** A cell carries the deleting marker exactly when its removal is under way. */
  predicate MarkedIffPending(cs: seq<Cell>, pending: seq<Removal>)
  {
    forall p :: 0 <= p < |cs| ==> (cs[p].deleting <==> IsPending(pending, cs[p].id))
  }

  predicate Valid(s: Sheet)
  {
    && Numbered(s.cells)
    && DistinctIds(s.cells)
    && IdsBelow(s.cells, s.nextId)
    && PendingBelow(s.pending, s.nextId)
    && MarkedIffPending(s.cells, s.pending)
    && (s.cells != [] ==> s.cellCount == |s.cells|)
  }

  // ---------------------------------------------------------------------
  // Renumbering, appending, focus.
  // ---------------------------------------------------------------------

  /** The cells after `update_indices` has walked over them. */
  function Renumber(cs: seq<Cell>): (r: seq<Cell>)
    ensures |r| == |cs| && Numbered(r)
    ensures forall p :: 0 <= p < |cs| ==> r[p] == cs[p].(index := p, tabindex := p + 1)
  {
    seq(|cs|, p requires 0 <= p < |cs| => cs[p].(index := p, tabindex := p + 1))
  }

  /** `b` begins with the cells of `a`, whose `data-index` and `tabindex`
      attributes may have changed. */
  predicate KeepsCells(a: seq<Cell>, b: seq<Cell>)
  {
    |a| <= |b| && forall p :: 0 <= p < |a| ==> b[p].(index := a[p].index, tabindex := a[p].tabindex) == a[p]
  }

  /** Renumbering keeps texts, outputs, markers and identities. */
  lemma RenumberKeeps(cs: seq<Cell>)
    ensures Texts(Renumber(cs)) == Texts(cs) && KeepsCells(cs, Renumber(cs))
    ensures DistinctIds(cs) ==> DistinctIds(Renumber(cs))
    ensures forall b: nat :: IdsBelow(cs, b) ==> IdsBelow(Renumber(cs), b)
    ensures forall pd :: MarkedIffPending(cs, pd) ==> MarkedIffPending(Renumber(cs), pd)
  {
  }

  /** `update_indices`: renumber, and set `cell_count` to the number of cells. */
  function UpdateIndices(s: Sheet): (r: Sheet)
    ensures Numbered(r.cells) && r.cellCount == |r.cells| == |s.cells|
    ensures Texts(r.cells) == Texts(s.cells) && KeepsCells(s.cells, r.cells)
    ensures r.(cells := s.cells, cellCount := s.cellCount) == s
    ensures Valid(s) ==> Valid(r)
  {
    RenumberKeeps(s.cells);
    s.(cells := Renumber(s.cells), cellCount := |s.cells|)
  }

  /** A fresh element from the cell template: no text shown yet, no output,
      not marked, and not numbered until `update_indices` runs. */
  function FreshCell(id: nat, content: string): Cell
  {
    Cell(id, content, Blank, false, -1, -1)
  }

  /** `new_cell(content)`: append a fresh element, renumber, put `content`
      in its input and focus it. */
  function NewCell(s: Sheet, content: string): (r: Sheet)
    ensures Texts(r.cells) == Texts(s.cells) + [content]
    ensures KeepsCells(s.cells + [FreshCell(s.nextId, content)], r.cells)
    ensures r.cellCount == |r.cells| && r.focused == Some(s.nextId) && r.nextId == s.nextId + 1
    ensures r.(cells := s.cells, cellCount := s.cellCount, focused := s.focused, nextId := s.nextId) == s
    ensures Valid(s) ==> Valid(r)
  {
    var appended := s.(cells := s.cells + [FreshCell(s.nextId, content)], nextId := s.nextId + 1);
    var r := UpdateIndices(appended).(focused := Some(s.nextId));
    assert Texts(appended.cells) == Texts(s.cells) + [content];
    assert Valid(s) ==> Valid(r) by {
      if Valid(s) {
        assert !IsPending(s.pending, s.nextId);
        RenumberKeeps(appended.cells);
      }
    }
    r
  }

  /** `focus(index)`: ignored outside `0 <= index < cell_count`; an index the
      stale count lets through but no cell has makes `find_cell` throw, which
      changes nothing either. */
  function Focus(s: Sheet, index: int): (r: Sheet)
    ensures 0 <= index < s.cellCount && index < |s.cells| ==> r.focused == Some(s.cells[index].id)
    ensures r.focused != s.focused ==> 0 <= index < s.cellCount && index < |s.cells|
    ensures r.(focused := s.focused) == s
    ensures Valid(s) ==> Valid(r)
  {
    if index >= s.cellCount || index < 0 || index >= |s.cells| then s
    else s.(focused := Some(s.cells[index].id))
  }

  // ---------------------------------------------------------------------
  // Growing and editing.
  // ---------------------------------------------------------------------

  function Blanks(n: nat): (ts: seq<string>)
    ensures |ts| == n && forall k :: 0 <= k < n ==> ts[k] == ""
  {
    seq(n, _ => "")
  }

  lemma KeepsCellsTrans(a: seq<Cell>, b: seq<Cell>, c: seq<Cell>)
    requires KeepsCells(a, b) && KeepsCells(b, c)
    ensures KeepsCells(a, c)
  {
  }

  /** `grow_to(number)`: append empty cells until there is a cell `number`. */
  function GrowTo(s: Sheet, number: int): (r: Sheet)
    ensures |r.cells| == if number < |s.cells| then |s.cells| else number + 1
    ensures Texts(r.cells) == Texts(s.cells) + Blanks(|r.cells| - |s.cells|)
    ensures KeepsCells(s.cells, r.cells)
    ensures forall p :: |s.cells| <= p < |r.cells| ==> r.cells[p].output == Blank && !r.cells[p].deleting
    ensures number < |s.cells| ==> r == s
    ensures r.scope == s.scope && r.sent == s.sent && r.pending == s.pending
    ensures Valid(s) ==> Valid(r)
    decreases if number < |s.cells| then 0 else number + 1 - |s.cells|
  {
    if number < |s.cells| then
      assert Texts(s.cells) + Blanks(0) == Texts(s.cells);
      s
    else
      var t := NewCell(s, "");
      var r := GrowTo(t, number);
      assert Texts(t.cells) + Blanks(|r.cells| - |t.cells|) == Texts(s.cells) + Blanks(|r.cells| - |s.cells|);
      assert KeepsCells(s.cells, s.cells + [FreshCell(s.nextId, "")]);
      KeepsCellsTrans(s.cells, s.cells + [FreshCell(s.nextId, "")], t.cells);
      KeepsCellsTrans(s.cells, t.cells, r.cells);
      r
  }

  /** Each `new_cell` of `grow_to` takes the focus, so a sheet that grows ends
      with the focus on the new cell `number`. */
  lemma {:induction false} GrowToFocus(s: Sheet, number: int)
    requires number >= |s.cells|
    ensures GrowTo(s, number).focused == Some(GrowTo(s, number).cells[number].id)
    decreases number + 1 - |s.cells|
  {
    var t := NewCell(s, "");
    if number == |s.cells| {
      assert GrowTo(t, number) == t;
      assert t.cells[number].id == s.nextId;
    } else {
      GrowToFocus(t, number);
    }
  }

  /** `field.value = content` for the input of cell `number`. */
  function SetText(s: Sheet, number: nat, content: string): (r: Sheet)
    requires number < |s.cells|
    ensures Texts(r.cells) == Texts(s.cells)[number := content]
    ensures |r.cells| == |s.cells| && r.cells[number] == s.cells[number].(text := content)
    ensures forall p :: 0 <= p < |s.cells| && p != number ==> r.cells[p] == s.cells[p]
    ensures r.(cells := s.cells) == s
    ensures Valid(s) ==> Valid(r)
  {
    s.(cells := s.cells[number := s.cells[number].(text := content)])
  }

  // ---------------------------------------------------------------------
  // Two-phase deletion.
  // ---------------------------------------------------------------------

  lemma PendingAppend(pd: seq<Removal>, x: Removal, id: nat)
    ensures IsPending(pd + [x], id) <==> IsPending(pd, id) || x.cell == id
  {
    if IsPending(pd, id) {
      var j :| 0 <= j < |pd| && pd[j].cell == id;
      assert (pd + [x])[j] == pd[j];
    }
    if x.cell == id {
      assert (pd + [x])[|pd|] == x;
    }
  }

  function Without(pd: seq<Removal>, k: nat): (r: seq<Removal>)
    requires k < |pd|
    ensures |r| == |pd| - 1
  {
    pd[..k] + pd[k + 1..]
  }

  lemma PendingWithout(pd: seq<Removal>, k: nat, id: nat)
    requires k < |pd| && pd[k].cell != id
    ensures IsPending(Without(pd, k), id) <==> IsPending(pd, id)
  {
    var w := Without(pd, k);
    if IsPending(pd, id) {
      var j :| 0 <= j < |pd| && pd[j].cell == id;
      if j < k { assert w[j] == pd[j]; } else { assert w[j - 1] == pd[j]; }
    }
    if IsPending(w, id) {
      var j :| 0 <= j < |w| && w[j].cell == id;
      if j < k { assert w[j] == pd[j]; } else { assert w[j] == pd[j + 1]; }
    }
  }

  /** The guard of `delete_cell`: never the only cell, never past the end. */
  predicate DeleteGuard(s: Sheet, index: int)
  {
    (index > 0 || |s.cells| > 1) && index < |s.cells|
  }

  /** `delete_cell(index, remote)`: when the guard lets it through and the
      cell is not already being deleted, mark it, start its removal, and
      unless the call came from the socket, tell the server.  A negative
      index passes the guard when there are two cells or more, and then
      `find_cell` throws before anything changes. */
  function DeleteCell(s: Sheet, index: int, remote: bool): (r: Sheet)
    ensures Valid(s) ==> Valid(r)
  {
    if !DeleteGuard(s, index) || index < 0 || s.cells[index].deleting then s
    else
      var c := s.cells[index];
      var r := s.(cells := s.cells[index := c.(deleting := true)],
                  pending := s.pending + [Removal(c.id, index)],
                  sent := if remote then s.sent else s.sent + [DeleteEvent(index)]);
      assert Valid(s) ==> Valid(r) by {
        if Valid(s) {
          forall p | 0 <= p < |r.cells|
            ensures r.cells[p].deleting <==> IsPending(r.pending, r.cells[p].id)
          {
            PendingAppend(s.pending, Removal(c.id, index), r.cells[p].id);
          }
        }
      }
      r
  }

  /** Where the element `id` is among the cells, if it is still attached. */
  function PositionOf(cs: seq<Cell>, id: nat): (r: Option<nat>)
    ensures r.Some? ==> r.value < |cs| && cs[r.value].id == id
    ensures r.None? ==> forall p :: 0 <= p < |cs| ==> cs[p].id != id
  {
    if cs == [] then None
    else if cs[0].id == id then Some(0)
    else match PositionOf(cs[1..], id)
      case None => None
      case Some(p) => Some(p + 1)
  }

  function RemoveAt(cs: seq<Cell>, p: nat): (r: seq<Cell>)
    requires p < |cs|
    ensures |r| == |cs| - 1
    ensures forall q :: 0 <= q < |r| ==> r[q] == if q < p then cs[q] else cs[q + 1]
  {
    cs[..p] + cs[p + 1..]
  }

  /** The end of the removal animation started for `pending[k]`: the
      element leaves the container (and takes the keyboard focus with it),
      `update_indices` runs, and `focus(index - 1)` with the index that
      `delete_cell` was called with.  If the element was already detached,
      by `load_json` clearing the container, `removeChild` throws and only
      the animation is over. */
  function CompleteRemoval(s: Sheet, k: nat): (r: Sheet)
    requires k < |s.pending|
    ensures Valid(s) ==> Valid(r)
  {
    var rm := s.pending[k];
    match PositionOf(s.cells, rm.cell)
    case None =>
      var r := s.(pending := Without(s.pending, k));
      assert Valid(s) ==> Valid(r) by {
        if Valid(s) {
          forall p | 0 <= p < |r.cells|
            ensures r.cells[p].deleting <==> IsPending(r.pending, r.cells[p].id)
          {
            PendingWithout(s.pending, k, r.cells[p].id);
          }
        }
      }
      r
    case Some(p) =>
      var detached := s.(cells := RemoveAt(s.cells, p), pending := Without(s.pending, k),
                         focused := if s.focused == Some(rm.cell) then None else s.focused);
      var r := Focus(UpdateIndices(detached), rm.index - 1);
      assert Valid(s) ==> Valid(r) by {
        if Valid(s) {
          forall q | 0 <= q < |detached.cells|
            ensures detached.cells[q].deleting <==> IsPending(detached.pending, detached.cells[q].id)
          {
            PendingWithout(s.pending, k, detached.cells[q].id);
          }
          RenumberKeeps(detached.cells);
        }
      }
      r
  }

  // ---------------------------------------------------------------------
  // Evaluating cells.
  // ---------------------------------------------------------------------

  /** A result that makes `calculate_cell` go on to the next cell: a defined
      value for a text that is not empty. */
  predicate Advances(o: Outcome, parsed: string)
  {
    o.Defined? && parsed != ""
  }

  /** What the output element shows after `calculate_cell`: the exception
      when the evaluator throws; otherwise nothing new for an empty text;
      otherwise the result, `undefined` included. */
  function Render(o: Outcome, parsed: string, previous: Output): (out: Output)
    ensures o.Raised? ==> out == ShownError(o.message)
    ensures !o.Raised? && parsed == "" ==> out == previous
    ensures o.Defined? && parsed != "" ==> out == Shown(o.value)
    ensures o.Undefined? && parsed != "" ==> out == ShownUndefined
    ensures out != previous && !o.Raised? ==> parsed != ""
  {
    match o
    case Raised(m) => ShownError(m)
    case Undefined => if parsed == "" then previous else ShownUndefined
    case Defined(v) => if parsed == "" then previous else Shown(v)
  }

  function SetOutput(s: Sheet, index: nat, out: Output): (r: Sheet)
    requires index < |s.cells|
    ensures Texts(r.cells) == Texts(s.cells) && KeepsCells(s.cells[index := s.cells[index].(output := out)], r.cells)
    ensures |r.cells| == |s.cells| && r.cells[index] == s.cells[index].(output := out)
    ensures forall p :: 0 <= p < |s.cells| && p != index ==> r.cells[p] == s.cells[p]
    ensures r.(cells := s.cells) == s
    ensures Valid(s) ==> Valid(r)
  {
    s.(cells := s.cells[index := s.cells[index].(output := out)])
  }

  /** After a result: on the last cell (by `cell_count`) a new empty cell is
      appended; otherwise the next input takes the focus, if there is one. */
  function Advance(s: Sheet, index: int): (r: Sheet)
    ensures Valid(s) ==> Valid(r)
  {
    if index == s.cellCount - 1 then NewCell(s, "")
    else if 0 <= index + 1 < |s.cells| then s.(focused := Some(s.cells[index + 1].id))
    else s
  }

  /** `calculate_cell(index)`: rewrite the text with `ee_parse`, evaluate it
      in the scope (which the evaluator may change), show the outcome, and
      when it `Advances`, move on.  `find_cell` throws on an index no cell
      has, before anything changes. */
  function Calculate(ev: Evaluator, s: Sheet, index: int): (r: Sheet)
    ensures Valid(s) ==> Valid(r)
    ensures Texts(r.cells) == Texts(s.cells) || Texts(r.cells) == Texts(s.cells) + [""]
    ensures r.sent == s.sent && r.pending == s.pending
    ensures |r.cells| == |s.cells| ==> r.cellCount == s.cellCount
    ensures |r.cells| != |s.cells| ==>
      && 0 <= index == s.cellCount - 1 < |s.cells| && r.cellCount == |r.cells|
      && ev.parse(s.cells[index].text) != ""
  {
    if index < 0 || index >= |s.cells| then s
    else
      var text := ev.parse(s.cells[index].text);
      var e := ev.eval(text, s.scope);
      var shown := SetOutput(s.(scope := e.scope), index, Render(e.outcome, text, s.cells[index].output));
      if Advances(e.outcome, text) then Advance(shown, index) else shown
  }

  /** 1 when the last cell's text rewrites to something, which is what can
      make evaluating it append a cell. */
  function LastCounts(ev: Evaluator, s: Sheet): nat
  {
    if s.cells != [] && ev.parse(s.cells[|s.cells| - 1].text) != "" then 1 else 0
  }

  /** The loop of `re_run` from cell `i` on; it re-reads the number of cells
      after each cell, so a cell appended on the way is evaluated too. */
  function RunFrom(ev: Evaluator, s: Sheet, i: nat): (r: Sheet)
    ensures Valid(s) ==> Valid(r)
    decreases if s.cellCount == |s.cells| then 0 else 1, |s.cells| - i + LastCounts(ev, s)
  {
    if i >= |s.cells| then s
    else
      var t := Calculate(ev, s, i);
      assert |t.cells| != |s.cells| ==> Texts(t.cells)[|t.cells| - 1] == "";
      RunFrom(ev, t, i + 1)
  }

  /** `re_run`: empty the scope, then evaluate every cell in order. */
  function ReRun(ev: Evaluator, s: Sheet): (r: Sheet)
    ensures Valid(s) ==> Valid(r)
  {
    RunFrom(ev, s.(scope := map[]), 0)
  }

  // ---------------------------------------------------------------------
  // Editing, loading, sending.
  // ---------------------------------------------------------------------

  /** `edit_cell(number, content)`: grow to `number`, set its text, and
      evaluate it.  For a negative number `grow_to` adds nothing and
      `find_cell` throws. */
  function EditCell(ev: Evaluator, s: Sheet, number: int, content: string): (r: Sheet)
    ensures Valid(s) ==> Valid(r)
  {
    if number < 0 then s
    else Calculate(ev, SetText(GrowTo(s, number), number, content), number)
  }

  /** `delete_all`: the container is emptied; the detached elements take the
      focus with them, and their animations, if any, go on.  `cell_count`
      keeps its old value. */
  function DeleteAll(s: Sheet): (r: Sheet)
    ensures r.cells == [] && r.focused == None
    ensures r.(cells := s.cells, focused := s.focused) == s
    ensures Valid(s) ==> Valid(r)
  {
    s.(cells := [], focused := None)
  }

  /** The loop of `load_json` over the snapshot's texts. */
  function Rebuild(s: Sheet, snapshot: seq<string>): (r: Sheet)
    ensures Texts(r.cells) == Texts(s.cells) + snapshot
    ensures snapshot != [] ==> r.cellCount == |r.cells|
    ensures snapshot == [] ==> r == s
    ensures Valid(s) ==> Valid(r)
    decreases |snapshot|
  {
    if snapshot == [] then
      assert Texts(s.cells) + snapshot == Texts(s.cells);
      s
    else
      var t := NewCell(s, snapshot[0]);
      var r := Rebuild(t, snapshot[1..]);
      ShiftFirst(Texts(s.cells), snapshot);
      r
  }

  lemma ShiftFirst(ts: seq<string>, snapshot: seq<string>)
    requires snapshot != []
    ensures ts + snapshot == (ts + [snapshot[0]]) + snapshot[1..]
  {
    assert snapshot == [snapshot[0]] + snapshot[1..];
  }

  /** The focus is on the last cell. */
  predicate FocusOnLast(r: Sheet)
  {
    r.cells != [] && r.focused == Some(r.cells[|r.cells| - 1].id)
  }

  /** The cell `new_cell` appends is last and has the focus. */
  lemma NewCellLast(s: Sheet, content: string)
    ensures FocusOnLast(NewCell(s, content))
  {
    var t := NewCell(s, content);
    assert KeepsCells(s.cells + [FreshCell(s.nextId, content)], t.cells);
    assert t.cells[|s.cells|].id == s.nextId;
  }

  /** Each `new_cell` of `load_json`'s loop takes the focus, so the last cell
      built ends up with it. */
  lemma {:induction false} RebuildFocus(s: Sheet, snapshot: seq<string>)
    requires snapshot != []
    ensures FocusOnLast(Rebuild(s, snapshot))
    decreases |snapshot|
  {
    var t := NewCell(s, snapshot[0]);
    var rest := snapshot[1..];
    assert Rebuild(s, snapshot) == Rebuild(t, rest);
    if rest == [] {
      NewCellLast(s, snapshot[0]);
    } else {
      RebuildFocus(t, rest);
    }
  }

  /** `load_json`'s loop keeps the cells it finds and adds cells that show
      nothing yet. */
  lemma {:induction false} RebuildKeeps(s: Sheet, snapshot: seq<string>)
    ensures var r := Rebuild(s, snapshot);
      && KeepsCells(s.cells, r.cells)
      && (forall k :: |s.cells| <= k < |r.cells| ==> r.cells[k].output == Blank)
      && r.scope == s.scope && r.sent == s.sent && r.pending == s.pending
    decreases |snapshot|
  {
    if snapshot != [] {
      var t := NewCell(s, snapshot[0]);
      var r := Rebuild(t, snapshot[1..]);
      assert r == Rebuild(s, snapshot);
      RebuildKeeps(t, snapshot[1..]);
      KeepsCellsTrans(s.cells, s.cells + [FreshCell(s.nextId, snapshot[0])], t.cells);
      KeepsCellsTrans(s.cells, t.cells, r.cells);
      assert t.cells[|s.cells|].output == Blank;
    }
  }

  /** `load_json(snapshot)`: clear the sheet, build one cell per text, and
      re-run the whole sheet. */
  function LoadJson(ev: Evaluator, s: Sheet, snapshot: seq<string>): (r: Sheet)
    ensures Valid(s) ==> Valid(r)
  {
    ReRun(ev, Rebuild(DeleteAll(s), snapshot))
  }

  /** `send_value(index)`: emit the cell's text; `find_cell` throws on an
      index no cell has. */
  function SendValue(s: Sheet, index: int): (r: Sheet)
    ensures r.(sent := s.sent) == s
    ensures 0 <= index < |s.cells| ==> r.sent == s.sent + [EditEvent(index, s.cells[index].text)]
    ensures !(0 <= index < |s.cells|) ==> r == s
    ensures Valid(s) ==> Valid(r)
  {
    if 0 <= index < |s.cells| then s.(sent := s.sent + [EditEvent(index, s.cells[index].text)]) else s
  }

  /** One edit event per cell, in order. */
  function EditEvents(cs: seq<Cell>): (es: seq<Event>)
    ensures |es| == |cs|
    ensures forall k :: 0 <= k < |cs| ==> es[k] == EditEvent(k, cs[k].text)
  {
    seq(|cs|, k requires 0 <= k < |cs| => EditEvent(k, cs[k].text))
  }

  /** `send_all`: `send_value` for every cell in order. */
  function SendAll(s: Sheet): (r: Sheet)
    ensures r.(sent := s.sent) == s
    ensures |r.sent| == |s.sent| + |s.cells| && r.sent[..|s.sent|] == s.sent
    ensures forall k :: 0 <= k < |s.cells| ==> r.sent[|s.sent| + k] == EditEvent(k, s.cells[k].text)
    ensures Valid(s) ==> Valid(r)
  {
    s.(sent := s.sent + EditEvents(s.cells))
  }

  // ---------------------------------------------------------------------
  // What drives the sheet: the page's start, the socket, the keys.
  // ---------------------------------------------------------------------

  /** The sheet `eecalc` starts with: `new_cell("")` on an empty container. */
  function Init(): (r: Sheet)
    ensures Valid(r) && Texts(r.cells) == [""] && r.focused == Some(r.cells[0].id)
    ensures r.scope == map[] && r.sent == [] && r.pending == []
  {
    NewCell(Sheet([], 0, None, map[], [], [], 0), "")
  }

  /** Socket message `sheet`. */
  function OnSheet(ev: Evaluator, s: Sheet, snapshot: seq<string>): (r: Sheet)
    ensures Valid(s) ==> Valid(r)
  {
    LoadJson(ev, s, snapshot)
  }

  /** Socket message `edit cell`. */
  function OnRemoteEdit(ev: Evaluator, s: Sheet, number: int, content: string): (r: Sheet)
    ensures Valid(s) ==> Valid(r)
  {
    EditCell(ev, s, number, content)
  }

  /** Socket message `delete cell`: always a remote deletion. */
  function OnRemoteDelete(s: Sheet, number: int): (r: Sheet)
    ensures Valid(s) ==> Valid(r)
  {
    DeleteCell(s, number, true)
  }

  /** Enter without Shift in the input of cell `p`: send its text, then
      evaluate it. */
  function OnEnter(ev: Evaluator, s: Sheet, p: nat): (r: Sheet)
    requires p < |s.cells|
    ensures r.sent == s.sent + [EditEvent(p, s.cells[p].text)]
    ensures Valid(s) ==> Valid(r)
  {
    Calculate(ev, SendValue(s, p), p)
  }

  /** Arrow up in the input of cell `p`. */
  function OnArrowUp(s: Sheet, p: nat): (r: Sheet)
    requires p < |s.cells|
    ensures r.(focused := s.focused) == s
    ensures 0 < p <= s.cellCount ==> r.focused == Some(s.cells[p - 1].id)
    ensures p == 0 || p > s.cellCount ==> r == s
    ensures Valid(s) ==> Valid(r)
  {
    Focus(s, p - 1)
  }

  /** Arrow down in the input of cell `p`. */
  function OnArrowDown(s: Sheet, p: nat): (r: Sheet)
    requires p < |s.cells|
    ensures r.(focused := s.focused) == s
    ensures p + 1 < s.cellCount && p + 1 < |s.cells| ==> r.focused == Some(s.cells[p + 1].id)
    ensures p + 1 >= s.cellCount || p + 1 >= |s.cells| ==> r == s
    ensures Valid(s) ==> Valid(r)
  {
    Focus(s, p + 1)
  }

  /** Backspace in the input of cell `p`: deletes the cell when the input is
      already empty. */
  function OnBackspace(s: Sheet, p: nat): (r: Sheet)
    requires p < |s.cells|
    ensures s.cells[p].text != "" ==> r == s
    ensures Valid(s) ==> Valid(r)
  {
    if s.cells[p].text == "" then DeleteCell(s, p, false) else s
  }

  /** The cell's go button. */
  function OnGoButton(ev: Evaluator, s: Sheet, p: nat): (r: Sheet)
    requires p < |s.cells|
    ensures Valid(s) ==> Valid(r)
  {
    Calculate(ev, s, p)
  }

  /** A starter button: `load_json`, `send_all`, `re_run`. */
  function OnStarter(ev: Evaluator, s: Sheet, snapshot: seq<string>): (r: Sheet)
    ensures Valid(s) ==> Valid(r)
  {
    ReRun(ev, SendAll(LoadJson(ev, s, snapshot)))
  }

  // ---------------------------------------------------------------------
  // Deletion.
  // ---------------------------------------------------------------------

  /** A call of `delete_cell` does something exactly when there are at least
      two cells, the index names one of them, and that one is not already
      being deleted; in particular the only cell is never marked. */
  lemma DeleteChangesIff(s: Sheet, index: int, remote: bool)
    ensures DeleteCell(s, index, remote) != s
        <==> 1 < |s.cells| && 0 <= index < |s.cells| && !s.cells[index].deleting
    ensures |s.cells| <= 1 ==> DeleteCell(s, index, remote) == s
  {
    var r := DeleteCell(s, index, remote);
    if 1 < |s.cells| && 0 <= index < |s.cells| && !s.cells[index].deleting {
      assert DeleteGuard(s, index);
      assert r.cells[index].deleting;
    }
  }

  /** What a deletion that goes through does: it marks that one cell and
      nothing else, records one pending removal, and emits one
      `delete cell` event for a local call and none for a remote one. */
  lemma DeleteEffect(s: Sheet, index: int, remote: bool)
    requires 1 < |s.cells| && 0 <= index < |s.cells| && !s.cells[index].deleting
    ensures var r := DeleteCell(s, index, remote);
      && Texts(r.cells) == Texts(s.cells)
      && r.cells[index] == s.cells[index].(deleting := true)
      && (forall p :: 0 <= p < |s.cells| && p != index ==> r.cells[p] == s.cells[p])
      && r.pending == s.pending + [Removal(s.cells[index].id, index)]
      && r.sent == (if remote then s.sent else s.sent + [DeleteEvent(index)])
      && r.(cells := s.cells, pending := s.pending, sent := s.sent) == s
  {
    assert DeleteGuard(s, index);
  }

  /** A second `delete_cell` on a cell being deleted changes nothing and
      emits nothing. */
  lemma DeleteTwice(s: Sheet, index: int, first: bool, second: bool)
    ensures DeleteCell(DeleteCell(s, index, first), index, second) == DeleteCell(s, index, first)
  {
    var r := DeleteCell(s, index, first);
    if r != s {
      DeleteChangesIff(s, index, first);
      DeleteEffect(s, index, first);
      assert r.cells[index].deleting;
    }
  }

  /** Applying an edit received from the socket sends nothing back. */
  lemma RemoteEditSilent(ev: Evaluator, s: Sheet, number: int, content: string)
    ensures OnRemoteEdit(ev, s, number, content).sent == s.sent
  {
  }

  /** The socket's `delete cell` handler never emits. */
  lemma RemoteDeleteSilent(s: Sheet, number: int)
    ensures OnRemoteDelete(s, number).sent == s.sent
  {
    if OnRemoteDelete(s, number) != s {
      DeleteChangesIff(s, number, true);
      DeleteEffect(s, number, true);
    }
  }

  /** Backspace deletes exactly when the input is empty and `delete_cell`
      lets the deletion through; it then marks that cell and emits one local
      `delete cell` event. */
  lemma BackspaceEffect(s: Sheet, p: nat)
    requires p < |s.cells|
    ensures var r := OnBackspace(s, p);
      && (r != s <==> s.cells[p].text == "" && 1 < |s.cells| && !s.cells[p].deleting)
      && (r != s ==> r.cells[p].deleting && r.sent == s.sent + [DeleteEvent(p)] && Texts(r.cells) == Texts(s.cells))
  {
    if s.cells[p].text == "" {
      DeleteChangesIff(s, p, false);
      if DeleteCell(s, p, false) != s {
        DeleteEffect(s, p, false);
      }
    }
  }

  /** The end of a removal whose element is still attached at position `p`:
      exactly that element, which carries the deleting marker, leaves; the
      others keep their order and content and are renumbered; `cell_count`
      is the new length; and `index - 1` takes the focus when it names a
      cell, while otherwise the focus stays where it was, unless it was on
      the removed element. */
  lemma CompleteRemovalEffect(s: Sheet, k: nat, p: nat)
    requires Valid(s) && k < |s.pending|
    requires p < |s.cells| && s.cells[p].id == s.pending[k].cell
    ensures s.cells[p].deleting
    ensures var r := CompleteRemoval(s, k); var i := s.pending[k].index;
      && Texts(r.cells) == Texts(s.cells[..p]) + Texts(s.cells[p + 1..])
      && KeepsCells(RemoveAt(s.cells, p), r.cells) && Numbered(r.cells)
      && r.cellCount == |r.cells| == |s.cells| - 1
      && r.pending == Without(s.pending, k)
      && (0 <= i - 1 < |r.cells| ==> r.focused == Some(r.cells[i - 1].id))
      && (!(0 <= i - 1 < |r.cells|) ==>
            r.focused == (if s.focused == Some(s.cells[p].id) then None else s.focused))
      && r.scope == s.scope && r.sent == s.sent
  {
    assert IsPending(s.pending, s.cells[p].id);
    var q := PositionOf(s.cells, s.pending[k].cell);
    assert q == Some(p);
    var r := CompleteRemoval(s, k);
    var rest := RemoveAt(s.cells, p);
    assert Texts(rest) == Texts(s.cells[..p]) + Texts(s.cells[p + 1..]);
  }

  /** The end of a removal whose element `load_json` has already detached
      only retires the animation. */
  lemma CompleteDetached(s: Sheet, k: nat)
    requires k < |s.pending| && forall p :: 0 <= p < |s.cells| ==> s.cells[p].id != s.pending[k].cell
    ensures CompleteRemoval(s, k) == s.(pending := Without(s.pending, k))
  {
    var q := PositionOf(s.cells, s.pending[k].cell);
    assert q.None?;
  }

  /** The guard of `delete_cell` counts the cells, marked ones included, when
      the deletion starts.  Deleting both cells of a two-cell sheet before the
      first animation ends therefore passes the guard twice, and when both
      removals complete, no cell is left. */
  lemma TwoDeletesEmptySheet(s: Sheet)
    requires Valid(s) && |s.cells| == 2 && s.pending == []
    requires !s.cells[0].deleting && !s.cells[1].deleting
    ensures var marked := DeleteCell(DeleteCell(s, 1, false), 0, false);
      && |marked.pending| == 2
      && CompleteRemoval(CompleteRemoval(marked, 0), 0).cells == []
  {
    var s1 := DeleteCell(s, 1, false);
    DeleteEffect(s, 1, false);
    DeleteEffect(s1, 0, false);
    var s2 := DeleteCell(s1, 0, false);
    assert s2.pending == [Removal(s.cells[1].id, 1), Removal(s.cells[0].id, 0)];
    assert Valid(s2);
    CompleteRemovalEffect(s2, 0, 1);
    var s3 := CompleteRemoval(s2, 0);
    assert s3.pending == [Removal(s.cells[0].id, 0)];
    assert s3.cells[0].id == s.cells[0].id;
    CompleteRemovalEffect(s3, 0, 0);
  }

  // ---------------------------------------------------------------------
  // Editing.
  // ---------------------------------------------------------------------

  /** The texts after `edit_cell(number, content)`, before the evaluation of
      cell `number` may append one more empty cell. */
  function EditedTexts(ts: seq<string>, number: nat, content: string): (es: seq<string>)
    ensures |es| == if number < |ts| then |ts| else number + 1
    ensures es[number] == content
    ensures forall k :: 0 <= k < |ts| && k != number ==> es[k] == ts[k]
    ensures forall k :: |ts| <= k < |es| && k != number ==> es[k] == ""
  {
    (ts + Blanks(if number < |ts| then 0 else number + 1 - |ts|))[number := content]
  }

  /** Growing and setting the text give the edited texts. */
  lemma GrowAndSet(s: Sheet, number: nat, content: string)
    ensures var g := GrowTo(s, number);
      number < |g.cells| && Texts(SetText(g, number, content).cells) == EditedTexts(Texts(s.cells), number, content)
  {
    var g := GrowTo(s, number);
    var ts := Texts(s.cells);
    assert Texts(g.cells) == ts + Blanks(if number < |ts| then 0 else number + 1 - |ts|);
  }

  /** `edit_cell(number, content)` on a non-negative number: the sheet
      grows with empty cells at the end until it has a cell `number`, that
      cell's text is `content`, the other texts stay as they were, and one
      more empty cell follows exactly when cell `number` is the last one and
      its evaluation, in the scope as it was, advances.  A negative number
      changes nothing. */
  lemma EditCellTexts(ev: Evaluator, s: Sheet, number: int, content: string)
    requires Valid(s)
    ensures number < 0 ==> EditCell(ev, s, number, content) == s
    ensures number >= 0 ==>
      var es := EditedTexts(Texts(s.cells), number, content);
      var ts := Texts(EditCell(ev, s, number, content).cells);
      var parsed := ev.parse(content);
      && (ts == es || ts == es + [""])
      && (ts == es + [""] <==> number == |es| - 1 && Advances(ev.eval(parsed, s.scope).outcome, parsed))
  {
    if number >= 0 {
      var g := GrowTo(s, number);
      GrowAndSet(s, number, content);
      var t := SetText(g, number, content);
      assert Valid(t);
      assert t.scope == s.scope && t.cells[number].text == content;
      var r := Calculate(ev, t, number);
      assert r == EditCell(ev, s, number, content);
      CalculateStep(ev, t, number);
    }
  }

  // ---------------------------------------------------------------------
  // Evaluation.
  // ---------------------------------------------------------------------

  /** `calculate_cell(index)` on a cell of the sheet: the scope is the one
      the evaluator leaves, the cell shows the outcome and the other cells
      are untouched.  An error, an empty text or an `undefined` result stops
      there: no cell is appended and the focus does not move.  A result on
      the last cell by `cell_count` appends exactly one empty cell and
      focuses it; a result on any other cell moves the focus to the next
      input. */
  lemma CalculateOutcome(ev: Evaluator, s: Sheet, index: nat)
    requires index < |s.cells|
    ensures var text := ev.parse(s.cells[index].text);
      var e := ev.eval(text, s.scope);
      var r := Calculate(ev, s, index);
      && r.scope == e.scope && r.sent == s.sent && r.pending == s.pending
      && KeepsCells(s.cells[index := s.cells[index].(output := Render(e.outcome, text, s.cells[index].output))], r.cells)
      && (!Advances(e.outcome, text) ==> |r.cells| == |s.cells| && r.focused == s.focused)
      && (Advances(e.outcome, text) && index == s.cellCount - 1 ==>
            && |r.cells| == |s.cells| + 1 && r.cells[|s.cells|].text == ""
            && r.cells[|s.cells|].output == Blank && r.focused == Some(r.cells[|s.cells|].id))
      && (Advances(e.outcome, text) && index != s.cellCount - 1 ==>
            && |r.cells| == |s.cells|
            && r.focused == (if index + 1 < |s.cells| then Some(s.cells[index + 1].id) else s.focused))
  {
    var text := ev.parse(s.cells[index].text);
    var e := ev.eval(text, s.scope);
    var shown := SetOutput(s.(scope := e.scope), index, Render(e.outcome, text, s.cells[index].output));
    if Advances(e.outcome, text) && index == s.cellCount - 1 {
      var r := NewCell(shown, "");
      assert r == Calculate(ev, s, index);
      assert Texts(r.cells)[|s.cells|] == "";
      KeepsCellsTrans(shown.cells, shown.cells + [FreshCell(shown.nextId, "")], r.cells);
    }
  }

  // ---------------------------------------------------------------------
  // Re-running the sheet.
  // ---------------------------------------------------------------------

  /** The scope after evaluating the texts `ts` in order, from an empty
      scope. */
  function ScopeAfter(ev: Evaluator, ts: seq<string>): Scope
    decreases |ts|
  {
    if ts == [] then map[]
    else ev.eval(ev.parse(ts[|ts| - 1]), ScopeAfter(ev, ts[..|ts| - 1])).scope
  }

  /** The outcome of text `k` when the texts before it have been evaluated
      in order. */
  function OutcomeAt(ev: Evaluator, ts: seq<string>, k: nat): Outcome
    requires k < |ts|
  {
    ev.eval(ev.parse(ts[k]), ScopeAfter(ev, ts[..k])).outcome
  }

  predicate AdvancesAt(ev: Evaluator, ts: seq<string>, k: nat)
    requires k < |ts|
  {
    Advances(OutcomeAt(ev, ts, k), ev.parse(ts[k]))
  }

  /** What cell `k` showed before the run; a cell the run appends starts blank. */
  function Prior(s0: Sheet, k: nat): Output
  {
    if k < |s0.cells| then s0.cells[k].output else Blank
  }

  /** What evaluating cells leaves alone: nothing is emitted, the removals
      under way stay, and every cell of `s0` is the same element with the
      same deleting marker. */
  predicate RunKeeps(s0: Sheet, r: Sheet)
  {
    && r.sent == s0.sent && r.pending == s0.pending
    && forall k :: 0 <= k < |s0.cells| && k < |r.cells| ==>
         r.cells[k].id == s0.cells[k].id && r.cells[k].deleting == s0.cells[k].deleting
  }

  /** The sheet a run over `s0` ends with: the texts are those of `s0`, with
      one empty cell more exactly when the last cell's evaluation advanced;
      each cell shows the outcome of its text in the scope its predecessors
      left; the scope is the one all cells leave; and `RunKeeps` holds. */
  predicate RanInOrder(ev: Evaluator, s0: Sheet, r: Sheet)
  {
    var ts := Texts(s0.cells);
    var us := Texts(r.cells);
    && RunKeeps(s0, r)
    && (us == ts || us == ts + [""])
    && (us == ts + [""] <==> ts != [] && AdvancesAt(ev, ts, |ts| - 1))
    && r.scope == ScopeAfter(ev, us)
    && forall k :: 0 <= k < |us| ==>
         r.cells[k].output == Render(OutcomeAt(ev, us, k), ev.parse(us[k]), Prior(s0, k))
  }

  /** What holds of the loop of `re_run` before cell `i`. */
  predicate RunInvariant(ev: Evaluator, s0: Sheet, s: Sheet, i: nat)
  {
    var ts := Texts(s0.cells);
    var us := Texts(s.cells);
    && RunKeeps(s0, s)
    && i <= |s.cells|
    && (us == ts || (us == ts + [""] && |ts| <= i))
    && (s.cells != [] ==> s.cellCount == |s.cells|)
    && s.scope == ScopeAfter(ev, us[..i])
    && (forall k :: 0 <= k < i ==>
          s.cells[k].output == Render(OutcomeAt(ev, us, k), ev.parse(us[k]), Prior(s0, k)))
    && (forall k :: i <= k < |s.cells| ==> s.cells[k].output == Prior(s0, k))
    && (us == ts + [""] <==> 0 < |ts| <= i && AdvancesAt(ev, ts, |ts| - 1))
  }

  lemma PrefixOfAppend(us: seq<string>, xs: seq<string>, k: nat)
    requires k <= |us|
    ensures (us + xs)[..k] == us[..k]
  {
  }

  /** Texts before position `|us|` are evaluated alike in `us` and in a
      longer sequence that starts with `us`. */
  lemma OutcomeAtAppend(ev: Evaluator, us: seq<string>, xs: seq<string>, k: nat)
    requires k < |us|
    ensures OutcomeAt(ev, us + xs, k) == OutcomeAt(ev, us, k)
  {
    PrefixOfAppend(us, xs, k);
  }

  lemma ScopeAfterStep(ev: Evaluator, us: seq<string>, i: nat)
    requires i < |us|
    ensures ScopeAfter(ev, us[..i + 1]) == ev.eval(ev.parse(us[i]), ScopeAfter(ev, us[..i])).scope
  {
    assert us[..i + 1][..i] == us[..i];
  }

  /** What `Calculate(ev, s, i)` leaves, stated about a sheet `t` without
      naming `Calculate`: the scope and output of cell `i` come from the
      evaluator, the other outputs and the texts stay, and one blank empty
      cell is appended exactly when cell `i` advances while it is the last
      by `cell_count`. */
  predicate StepFacts(ev: Evaluator, s: Sheet, t: Sheet, i: nat)
  {
    && i < |s.cells|
    && var us := Texts(s.cells);
    var vs := Texts(t.cells);
    var text := ev.parse(s.cells[i].text);
    var e := ev.eval(text, s.scope);
    && (vs == us || vs == us + [""])
    && t.scope == e.scope
    && t.cells[i].output == Render(e.outcome, text, s.cells[i].output)
    && (forall k :: 0 <= k < |s.cells| && k != i ==> t.cells[k].output == s.cells[k].output)
    && (vs != us ==> t.cells[|s.cells|].output == Blank && t.cellCount == |t.cells|)
    && (vs != us <==> Advances(e.outcome, text) && i == s.cellCount - 1)
    && (vs == us ==> t.cellCount == s.cellCount)
    && RunKeeps(s, t)
  }

  lemma CalculateStep(ev: Evaluator, s: Sheet, i: nat)
    requires i < |s.cells|
    ensures StepFacts(ev, s, Calculate(ev, s, i), i)
  {
    CalculateOutcome(ev, s, i);
  }

  /** How one evaluation in the loop changes the texts: a cell is appended
      only after the last original cell, and exactly when that cell
      advances. */
  lemma RunStepTexts(ev: Evaluator, s0: Sheet, s: Sheet, t: Sheet, i: nat)
    requires RunInvariant(ev, s0, s, i) && StepFacts(ev, s, t, i)
    ensures var ts := Texts(s0.cells);
      var us := Texts(s.cells);
      var vs := Texts(t.cells);
      vs == us + [""] <==> us == ts && i == |ts| - 1 && AdvancesAt(ev, ts, i)
  {
    var ts := Texts(s0.cells);
    var us := Texts(s.cells);
    assert ev.eval(ev.parse(s.cells[i].text), s.scope).outcome == OutcomeAt(ev, us, i);
    if us == ts + [""] && |ts| <= i {
      assert us[i] == "";
    }
  }

  /** The scope after one evaluation in the loop is the scope the first
      `i + 1` texts leave. */
  lemma RunStepScope(ev: Evaluator, s0: Sheet, s: Sheet, t: Sheet, i: nat)
    requires RunInvariant(ev, s0, s, i) && StepFacts(ev, s, t, i)
    ensures t.scope == ScopeAfter(ev, Texts(t.cells)[..i + 1])
  {
    var us := Texts(s.cells);
    var xs := if Texts(t.cells) == us then [] else [""];
    assert Texts(t.cells) == us + xs;
    PrefixOfAppend(us, xs, i + 1);
    ScopeAfterStep(ev, us, i);
  }

  /** After one evaluation in the loop, cells `0` to `i` show the outcomes
      of their texts in order. */
  lemma RunStepDone(ev: Evaluator, s0: Sheet, s: Sheet, t: Sheet, i: nat)
    requires RunInvariant(ev, s0, s, i) && StepFacts(ev, s, t, i)
    ensures var vs := Texts(t.cells);
      forall k :: 0 <= k <= i ==>
        t.cells[k].output == Render(OutcomeAt(ev, vs, k), ev.parse(vs[k]), Prior(s0, k))
  {
    var us := Texts(s.cells);
    var vs := Texts(t.cells);
    assert ev.eval(ev.parse(s.cells[i].text), s.scope).outcome == OutcomeAt(ev, us, i);
    var xs := if vs == us then [] else [""];
    assert vs == us + xs;
    forall k | 0 <= k <= i
      ensures t.cells[k].output == Render(OutcomeAt(ev, vs, k), ev.parse(vs[k]), Prior(s0, k))
    {
      OutcomeAtAppend(ev, us, xs, k);
      assert vs[k] == us[k];
      if k < i {
        assert t.cells[k].output == s.cells[k].output;
      }
    }
  }

  /** After one evaluation in the loop, the cells after `i` still show what
      they showed before the run. */
  lemma RunStepRest(ev: Evaluator, s0: Sheet, s: Sheet, t: Sheet, i: nat)
    requires RunInvariant(ev, s0, s, i) && StepFacts(ev, s, t, i)
    ensures forall k :: i + 1 <= k < |t.cells| ==> t.cells[k].output == Prior(s0, k)
  {
    RunStepTexts(ev, s0, s, t, i);
    forall k | i + 1 <= k < |t.cells|
      ensures t.cells[k].output == Prior(s0, k)
    {
      if k == |s.cells| {
        assert |Texts(s0.cells)| == k;
      }
    }
  }

  /** Evaluating one more cell still leaves the original ones alone. */
  lemma RunStepKeeps(ev: Evaluator, s0: Sheet, s: Sheet, t: Sheet, i: nat)
    requires RunInvariant(ev, s0, s, i) && StepFacts(ev, s, t, i)
    ensures RunKeeps(s0, t)
  {
    assert |s0.cells| <= |s.cells| <= |t.cells|;
  }

  /** One evaluation in the loop of `re_run` keeps its invariant. */
  lemma RunStep(ev: Evaluator, s0: Sheet, s: Sheet, i: nat)
    requires RunInvariant(ev, s0, s, i) && i < |s.cells|
    ensures RunInvariant(ev, s0, Calculate(ev, s, i), i + 1)
  {
    var t := Calculate(ev, s, i);
    CalculateStep(ev, s, i);
    RunStepTexts(ev, s0, s, t, i);
    RunStepScope(ev, s0, s, t, i);
    RunStepDone(ev, s0, s, t, i);
    RunStepRest(ev, s0, s, t, i);
    RunStepKeeps(ev, s0, s, t, i);
  }

  /** When the loop of `re_run` has passed every cell, its invariant is
      the final description. */
  lemma RunEndInOrder(ev: Evaluator, s0: Sheet, s: Sheet, i: nat)
    requires RunInvariant(ev, s0, s, i) && i >= |s.cells|
    ensures RanInOrder(ev, s0, s)
  {
    var ts := Texts(s0.cells);
    var us := Texts(s.cells);
    assert us[..i] == us;
    assert s.scope == ScopeAfter(ev, us);
    if us == ts {
      assert ts != [] && AdvancesAt(ev, ts, |ts| - 1) ==> 0 < |ts| <= i;
    }
  }

  /** The measure of the loop of `re_run`: first whether `cell_count` is
      stale, then the cells still to evaluate, counting the one a last
      cell with a non-empty text may append. */
  predicate MeasureLess(ev: Evaluator, s: Sheet, i: nat, t: Sheet, j: nat)
  {
    var a := if s.cellCount == |s.cells| then 0 else 1;
    var b := if t.cellCount == |t.cells| then 0 else 1;
    b < a || (b == a && |t.cells| - j + LastCounts(ev, t) < |s.cells| - i + LastCounts(ev, s))
  }

  lemma StepLowersMeasure(ev: Evaluator, s: Sheet, t: Sheet, i: nat)
    requires StepFacts(ev, s, t, i)
    ensures MeasureLess(ev, s, i, t, i + 1)
  {
    var us := Texts(s.cells);
    var vs := Texts(t.cells);
    if vs == us {
      assert t.cells[|t.cells| - 1].text == vs[|vs| - 1] == us[|us| - 1] == s.cells[|s.cells| - 1].text;
    } else {
      assert t.cells[|t.cells| - 1].text == vs[|vs| - 1] == "";
    }
  }

  /** One evaluation in the loop of `re_run` lowers the loop's measure in
      the lexicographic order, whatever `cell_count` is; this is what makes
      the loop stop although it may append a cell. */
  lemma RunDecreases(ev: Evaluator, s: Sheet, i: nat)
    requires i < |s.cells|
    ensures MeasureLess(ev, s, i, Calculate(ev, s, i), i + 1)
  {
    CalculateStep(ev, s, i);
    StepLowersMeasure(ev, s, Calculate(ev, s, i), i);
  }

  /** The loop of `re_run`, from any point where its invariant holds, ends
      in the sheet `RanInOrder` describes. */
  lemma {:induction false} RunFromInOrder(ev: Evaluator, s0: Sheet, s: Sheet, i: nat)
    requires RunInvariant(ev, s0, s, i)
    ensures RanInOrder(ev, s0, RunFrom(ev, s, i))
    decreases if s.cellCount == |s.cells| then 0 else 1, |s.cells| - i + LastCounts(ev, s)
  {
    if i >= |s.cells| {
      RunEndInOrder(ev, s0, s, i);
    } else {
      var t := Calculate(ev, s, i);
      RunStep(ev, s0, s, i);
      RunDecreases(ev, s, i);
      assert RunFrom(ev, s, i) == RunFrom(ev, t, i + 1);
      RunFromInOrder(ev, s0, t, i + 1);
    }
  }

  /** `re_run` evaluates the cells in order from an empty scope: each cell
      shows the outcome of its own text in the scope its predecessors
      leave, the final scope is the one all texts leave, and the only
      change to the texts is one empty cell appended when the last cell's
      evaluation advances. */
  lemma ReRunInOrder(ev: Evaluator, s0: Sheet)
    requires Valid(s0)
    ensures RanInOrder(ev, s0, ReRun(ev, s0))
  {
    var s := s0.(scope := map[]);
    assert Texts(s.cells)[..0] == [];
    RunFromInOrder(ev, s0, s, 0);
  }

  /** `load_json`: the sheet then holds one cell per text of the snapshot,
      plus one empty cell when the last text's evaluation advanced; every
      cell shows the outcome of its text in the scope the texts before it
      leave, starting from the empty scope; and the removals under way are
      kept.  An empty snapshot leaves no cell at all and `cell_count`
      as it was. */
  lemma LoadJsonResult(ev: Evaluator, s: Sheet, snapshot: seq<string>)
    requires Valid(s)
    ensures var r := LoadJson(ev, s, snapshot);
      var us := Texts(r.cells);
      && (us == snapshot || us == snapshot + [""])
      && (us == snapshot + [""] <==> snapshot != [] && AdvancesAt(ev, snapshot, |snapshot| - 1))
      && r.scope == ScopeAfter(ev, us)
      && (forall k :: 0 <= k < |us| ==> r.cells[k].output == Render(OutcomeAt(ev, us, k), ev.parse(us[k]), Blank))
      && (snapshot == [] ==> r.cells == [] && r.cellCount == s.cellCount && r.scope == map[])
      && r.sent == s.sent && r.pending == s.pending
  {
    var d := DeleteAll(s);
    assert d.cells == [] && d.cellCount == s.cellCount && d.sent == s.sent && d.pending == s.pending;
    var b := Rebuild(d, snapshot);
    RebuildKeeps(d, snapshot);
    assert Texts(b.cells) == snapshot by {
      assert Texts(d.cells) == [];
    }
    var r := ReRun(ev, b);
    assert r == LoadJson(ev, s, snapshot);
    ReRunInOrder(ev, b);
    var us := Texts(r.cells);
    forall k | 0 <= k < |us|
      ensures r.cells[k].output == Render(OutcomeAt(ev, us, k), ev.parse(us[k]), Blank)
    {
      assert Prior(b, k) == Blank;
    }
    if snapshot == [] {
      assert r == b.(scope := map[]);
    }
  }

  /** `re_run` emits nothing and keeps the pending removals, the ids and
      the removal markers. */
  lemma ReRunKeeps(ev: Evaluator, s0: Sheet)
    requires Valid(s0)
    ensures RunKeeps(s0, ReRun(ev, s0))
  {
    ReRunInOrder(ev, s0);
  }

  /** A starter button emits one `edit cell` event per cell `load_json`
      built, in order and once each, carrying the snapshot's texts (and the
      appended empty cell, if any); the final `re_run` emits nothing more. */
  lemma OnStarterSends(ev: Evaluator, s: Sheet, snapshot: seq<string>)
    requires Valid(s)
    ensures var l := LoadJson(ev, s, snapshot);
      var r := OnStarter(ev, s, snapshot);
      && (Texts(l.cells) == snapshot || Texts(l.cells) == snapshot + [""])
      && r.sent == s.sent + EditEvents(l.cells)
      && r.pending == s.pending
  {
    var l := LoadJson(ev, s, snapshot);
    assert (Texts(l.cells) == snapshot || Texts(l.cells) == snapshot + [""])
      && l.sent == s.sent && l.pending == s.pending by {
      LoadJsonResult(ev, s, snapshot);
    }
    var a := SendAll(l);
    assert a.sent == s.sent + EditEvents(l.cells);
    assert Valid(a) by {
      assert a.(sent := l.sent) == l;
    }
    ReRunKeeps(ev, a);
  }
}
