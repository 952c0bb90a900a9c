/**
 * The `eecalc(root_el, namespace)` closure of public/main.js:195-465 as an
 * object: its local variables and the DOM state it reads and writes are the
 * fields, and each inner function is a method that updates them in place.
 * Every method is proved to do what the matching function of `Sheets`
 * describes, so the lemmas of `Sheets` hold of the object's state.
 */
module EeCalc {
  import opened Sheets
  import EeNotation

  class Calc {
    /** The cell elements under `.eecalc-cells`, in document order. */
    var cells: seq<Cell>
    /** The closure's `cell_count`. */
    var cellCount: int
    /** The element whose input has the keyboard focus, if any. */
    var focused: Option<nat>
    /** The closure's `scope`. */
    var scope: Scope
    /** What has been emitted on the socket. */
    var sent: seq<Event>
    /** The removal animations that have started and not yet ended. */
    var pending: seq<Removal>
    /** The identity the next element from the cell template gets. */
    var nextId: nat
    /** `ee_parse`, then `math.eval`. */
    const ev: Evaluator

    function State(): Sheet
      reads this
    {
      Sheet(cells, cellCount, focused, scope, sent, pending, nextId)
    }

    predicate Valid()
      reads this
    {
      Sheets.Valid(State())
    }

    /** `eecalc(root_el, namespace)`: an empty scope and one empty cell. */
    constructor(evaluate: (string, Scope) -> Evaluation)
      ensures ev == Evaluator(EeNotation.EeParse, evaluate)
      ensures State() == Init() && Valid()
    {
      EeNotation.EeParseEmpty();
      ev := Evaluator(EeNotation.EeParse, evaluate);
      cells := [];
      cellCount := 0;
      focused := None;
      scope := map[];
      sent := [];
      pending := [];
      nextId := 0;
      new;
      NewCell("");
    }

    /** `update_indices`. */
    method UpdateIndices()
      modifies this
      ensures State() == Sheets.UpdateIndices(old(State()))
      ensures old(Valid()) ==> Valid()
    {
      var i := 0;
      while i < |cells|
        invariant 0 <= i <= |cells| == |old(cells)|
        invariant forall p :: 0 <= p < i ==> cells[p] == old(cells)[p].(index := p, tabindex := p + 1)
        invariant forall p :: i <= p < |cells| ==> cells[p] == old(cells)[p]
        invariant unchanged(`focused) && unchanged(`scope) && unchanged(`sent)
        invariant unchanged(`pending) && unchanged(`nextId)
      {
        cells := cells[i := cells[i].(index := i, tabindex := i + 1)];
        i := i + 1;
      }
      cellCount := i;
      assert cells == Renumber(old(cells));
    }

    /** `new_cell(content)`. */
    method NewCell(content: string)
      modifies this
      ensures State() == Sheets.NewCell(old(State()), content)
      ensures old(Valid()) ==> Valid()
    {
      var id := nextId;
      cells := cells + [FreshCell(id, content)];
      nextId := nextId + 1;
      UpdateIndices();
      focused := Some(id);
    }

    /** `focus(index)`. */
    method Focus(index: int)
      modifies this
      ensures State() == Sheets.Focus(old(State()), index)
      ensures old(Valid()) ==> Valid()
    {
      if index >= cellCount || index < 0 {
        return;
      }
      if index >= |cells| {
        // `find_cell(index)` throws: no cell has that index.
        return;
      }
      focused := Some(cells[index].id);
    }

    /** `grow_to(number)`. */
    method GrowTo(number: int)
      modifies this
      ensures State() == Sheets.GrowTo(old(State()), number)
      ensures old(Valid()) ==> Valid()
    {
      var i := |cells|;
      while i <= number
        invariant i == |cells|
        invariant Sheets.GrowTo(State(), number) == Sheets.GrowTo(old(State()), number)
        invariant old(Valid()) ==> Valid()
        decreases number - i
      {
        NewCell("");
        i := i + 1;
      }
    }

    /** `find_cell(number).input.value = content`. */
    method SetText(number: nat, content: string)
      requires number < |cells|
      modifies this
      ensures State() == Sheets.SetText(old(State()), number, content)
      ensures old(Valid()) ==> Valid()
    {
      cells := cells[number := cells[number].(text := content)];
    }

    /** `delete_cell(index, remote)`. */
    method DeleteCell(index: int, remote: bool)
      modifies this
      ensures State() == Sheets.DeleteCell(old(State()), index, remote)
      ensures old(Valid()) ==> Valid()
    {
      var len := |cells|;
      if (index > 0 || len > 1) && index < len {
        if index < 0 {
          // `find_cell(index)` throws: `subqsa` calls `querySelectorAll`
          // on the undefined element at that index.
          return;
        }
        var c := cells[index];
        if c.deleting {
          return;
        }
        cells := cells[index := c.(deleting := true)];
        pending := pending + [Removal(c.id, index)];
        if !remote {
          sent := sent + [DeleteEvent(index)];
        }
      }
    }

    /** The callback of `animated_remove` for the removal `pending[k]`. */
    method CompleteRemoval(k: nat)
      requires k < |pending|
      modifies this
      ensures State() == Sheets.CompleteRemoval(old(State()), k)
      ensures old(Valid()) ==> Valid()
    {
      var rm := pending[k];
      pending := pending[..k] + pending[k + 1..];
      var at := PositionOf(cells, rm.cell);
      if at.None? {
        // The element is no longer attached: `removeChild` throws.
        return;
      }
      cells := cells[..at.value] + cells[at.value + 1..];
      if focused == Some(rm.cell) {
        focused := None;
      }
      UpdateIndices();
      Focus(rm.index - 1);
    }

    /** `calculate_cell(index)`. */
    method Calculate(index: int)
      modifies this
      ensures State() == Sheets.Calculate(ev, old(State()), index)
      ensures old(Valid()) ==> Valid()
    {
      if index < 0 || index >= |cells| {
        return;
      }
      var text := ev.parse(cells[index].text);
      var e := ev.eval(text, scope);
      scope := e.scope;
      cells := cells[index := cells[index].(output := Render(e.outcome, text, cells[index].output))];
      if !Advances(e.outcome, text) {
        return;
      }
      if index == cellCount - 1 {
        NewCell("");
      } else if index + 1 < |cells| {
        focused := Some(cells[index + 1].id);
      }
    }

    /** `re_run`. */
    method ReRun()
      modifies this
      ensures State() == Sheets.ReRun(ev, old(State()))
      ensures old(Valid()) ==> Valid()
    {
      scope := map[];
      var i := 0;
      while i < |cells|
        invariant Sheets.RunFrom(ev, State(), i) == Sheets.ReRun(ev, old(State()))
        invariant old(Valid()) ==> Valid()
        decreases if cellCount == |cells| then 0 else 1, |cells| - i + LastCounts(ev, State())
      {
        ghost var s := State();
        Calculate(i);
        RunDecreases(ev, s, i);
        i := i + 1;
      }
    }

    /** `delete_all`: the container's content is dropped. */
    method DeleteAll()
      modifies this
      ensures State() == Sheets.DeleteAll(old(State()))
      ensures old(Valid()) ==> Valid()
    {
      cells := [];
      focused := None;
    }

    /** `load_json(data)`, with the snapshot's texts already parsed. */
    method LoadJson(snapshot: seq<string>)
      modifies this
      ensures State() == Sheets.LoadJson(ev, old(State()), snapshot)
      ensures old(Valid()) ==> Valid()
    {
      DeleteAll();
      ghost var cleared := State();
      var i := 0;
      while i < |snapshot|
        invariant 0 <= i <= |snapshot|
        invariant Rebuild(State(), snapshot[i..]) == Rebuild(cleared, snapshot)
        invariant old(Valid()) ==> Valid()
      {
        assert snapshot[i..][1..] == snapshot[i + 1..];
        NewCell(snapshot[i]);
        i := i + 1;
      }
      assert snapshot[i..] == [];
      ReRun();
    }

    /** `send_value(index)`. */
    method SendValue(index: int)
      modifies this
      ensures State() == Sheets.SendValue(old(State()), index)
      ensures old(Valid()) ==> Valid()
    {
      if index < 0 || index >= |cells| {
        // `find_cell(index)` throws: no cell has that index.
        return;
      }
      sent := sent + [EditEvent(index, cells[index].text)];
    }

    /** `send_all`. */
    method SendAll()
      modifies this
      ensures State() == Sheets.SendAll(old(State()))
      ensures old(Valid()) ==> Valid()
    {
      var i := 0;
      while i < |cells|
        invariant 0 <= i <= |cells|
        invariant State() == old(State()).(sent := old(sent) + EditEvents(cells[..i]))
      {
        assert cells[..i + 1] == cells[..i] + [cells[i]];
        SendValue(i);
        i := i + 1;
      }
      assert cells[..i] == cells;
    }

    /** `edit_cell(number, content)`. */
    method EditCell(number: int, content: string)
      modifies this
      ensures State() == Sheets.EditCell(ev, old(State()), number, content)
      ensures old(Valid()) ==> Valid()
    {
      GrowTo(number);
      if number < 0 {
        // `find_cell(number)` throws: no cell has that index.
        return;
      }
      SetText(number, content);
      Calculate(number);
    }

    /** Socket message `sheet`. */
    method OnSheet(snapshot: seq<string>)
      modifies this
      ensures State() == Sheets.OnSheet(ev, old(State()), snapshot)
      ensures old(Valid()) ==> Valid()
    {
      LoadJson(snapshot);
    }

    /** Socket message `edit cell`. */
    method OnRemoteEdit(number: int, content: string)
      modifies this
      ensures State() == Sheets.OnRemoteEdit(ev, old(State()), number, content)
      ensures old(Valid()) ==> Valid()
    {
      EditCell(number, content);
    }

    /** Socket message `delete cell`. */
    method OnRemoteDelete(number: int)
      modifies this
      ensures State() == Sheets.OnRemoteDelete(old(State()), number)
      ensures old(Valid()) ==> Valid()
    {
      DeleteCell(number, true);
    }

    /** Enter without Shift in the input of cell `p`. */
    method OnEnter(p: nat)
      requires p < |cells|
      modifies this
      ensures State() == Sheets.OnEnter(ev, old(State()), p)
      ensures old(Valid()) ==> Valid()
    {
      SendValue(p);
      Calculate(p);
    }

    /** Arrow up in the input of cell `p`. */
    method OnArrowUp(p: nat)
      requires p < |cells|
      modifies this
      ensures State() == Sheets.OnArrowUp(old(State()), p)
      ensures old(Valid()) ==> Valid()
    {
      Focus(p - 1);
    }

    /** Arrow down in the input of cell `p`. */
    method OnArrowDown(p: nat)
      requires p < |cells|
      modifies this
      ensures State() == Sheets.OnArrowDown(old(State()), p)
      ensures old(Valid()) ==> Valid()
    {
      Focus(p + 1);
    }

    /** Backspace in the input of cell `p`. */
    method OnBackspace(p: nat)
      requires p < |cells|
      modifies this
      ensures State() == Sheets.OnBackspace(old(State()), p)
      ensures old(Valid()) ==> Valid()
    {
      if cells[p].text == "" {
        DeleteCell(p, false);
      }
    }

    /** The go button of cell `p`. */
    method OnGoButton(p: nat)
      requires p < |cells|
      modifies this
      ensures State() == Sheets.OnGoButton(ev, old(State()), p)
      ensures old(Valid()) ==> Valid()
    {
      Calculate(p);
    }

    /** A starter button. */
    method OnStarter(snapshot: seq<string>)
      modifies this
      ensures State() == Sheets.OnStarter(ev, old(State()), snapshot)
      ensures old(Valid()) ==> Valid()
    {
      LoadJson(snapshot);
      SendAll();
      ReRun();
    }
  }
}
