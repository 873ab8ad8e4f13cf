/**
 * The palette's own decisions: `model.Update` on a message and the
 * quitting branch of `model.View`. The list widget is a collaborator whose
 * internals are not modelled; the model sees it only through the five
 * operations of `ListWidget`.
 */
module Palette {
  import opened Wrappers
  import opened Catalog
  import Dispatcher

  /** The messages `Update` tells apart. */
  datatype Msg =
    | KeyMsg(key: string)                     // a key press, by its name ("ctrl+c", "enter", ...)
    | WindowSizeMsg(width: int, height: int)  // the terminal was resized
    | OtherMsg                                // any other message of the runtime

  /** The list widget, over its own state `L`, as the palette uses it;
      `C` is the type of command the widget's own `Update` returns. */
  datatype ListWidget<!L, C> = ListWidget(
    selectedItem: L -> Option<Item>,
    cursorDown: L -> L,
    cursorUp: L -> L,
    setSize: (L, int, int) -> L,
    update: (L, Msg) -> (L, C))

  /** What `Update` returns besides the new model: the runtime's quit
      command, or whatever command the widget produced. */
  datatype Cmd<C> = Quit | FromList(cmd: C)

  datatype Model<L> = Model(list: L, choice: string, quitting: bool)

  /** The model `initialModel` builds around a freshly made list. */
  function InitialModel<L>(list: L): (m: Model<L>)
    ensures m.choice == "" && !m.quitting
  {
    Model(list, "", false)
  }

  /** Hand the message to the widget and keep the widget's new state. */
  function Forward<L, C>(w: ListWidget<L, C>, m: Model<L>, msg: Msg): (Model<L>, Cmd<C>) {
    var (list, cmd) := w.update(m.list, msg);
    (m.(list := list), FromList(cmd))
  }

  /** `model.Update`; `hFrame` and `vFrame` are the frame sizes of the
      document style. */
  function Update<L, C>(w: ListWidget<L, C>, hFrame: int, vFrame: int, m: Model<L>, msg: Msg)
    : (Model<L>, Cmd<C>)
  {
    match msg
    case KeyMsg(key) =>
      if key == "ctrl+c" then (m.(quitting := true), Quit)
      else if key == "ctrl+n" then Forward(w, m.(list := w.cursorDown(m.list)), msg)
      else if key == "ctrl+p" then Forward(w, m.(list := w.cursorUp(m.list)), msg)
      else if key == "enter" && w.selectedItem(m.list).Some? then
        (m.(choice := w.selectedItem(m.list).value.title), Quit)
      else Forward(w, m, msg)
    case WindowSizeMsg(width, height) =>
      Forward(w, m.(list := w.setSize(m.list, width - hFrame, height - vFrame)), msg)
    case OtherMsg => Forward(w, m, msg)
  }

  /** `model.View`; `render` stands for the styled rendering of the list. */
  function View<L>(m: Model<L>, render: L -> string): string {
    if m.quitting then "quit april\n" else render(m.list)
  }

  // ---------------------------------------------------------------------
  // Transitions, key by key
  // ---------------------------------------------------------------------

  /** `ctrl+c` sets `quitting`, keeps `choice`, quits, and the widget never
      sees the key. */
  lemma UpdateCtrlC<L, C>(w: ListWidget<L, C>, hFrame: int, vFrame: int, m: Model<L>)
    ensures var (m', cmd) := Update(w, hFrame, vFrame, m, KeyMsg("ctrl+c"));
      m'.quitting && m'.choice == m.choice && m'.list == m.list && cmd == Quit
  {
  }

  /** `enter` on a selected item records its title and quits without
      forwarding; `quitting` stays as it was. */
  lemma UpdateEnterSelected<L, C>(w: ListWidget<L, C>, hFrame: int, vFrame: int, m: Model<L>, it: Item)
    requires w.selectedItem(m.list) == Some(it)
    ensures var (m', cmd) := Update(w, hFrame, vFrame, m, KeyMsg("enter"));
      m'.choice == it.title && m'.quitting == m.quitting && m'.list == m.list && cmd == Quit
  {
  }

  /** `enter` with nothing selected changes neither field and falls through
      to the widget. */
  lemma UpdateEnterNothing<L, C>(w: ListWidget<L, C>, hFrame: int, vFrame: int, m: Model<L>)
    requires w.selectedItem(m.list).None?
    ensures var (m', cmd) := Update(w, hFrame, vFrame, m, KeyMsg("enter"));
      m'.choice == m.choice && m'.quitting == m.quitting
      && (m'.list, cmd) == (w.update(m.list, KeyMsg("enter")).0, FromList(w.update(m.list, KeyMsg("enter")).1))
  {
  }

  /** `ctrl+n` and `ctrl+p` move the cursor and then also forward the key. */
  lemma UpdateCursorKeys<L, C>(w: ListWidget<L, C>, hFrame: int, vFrame: int, m: Model<L>)
    ensures var (m', cmd) := Update(w, hFrame, vFrame, m, KeyMsg("ctrl+n"));
      m'.choice == m.choice && m'.quitting == m.quitting
      && m'.list == w.update(w.cursorDown(m.list), KeyMsg("ctrl+n")).0
      && cmd == FromList(w.update(w.cursorDown(m.list), KeyMsg("ctrl+n")).1)
    ensures var (m', cmd) := Update(w, hFrame, vFrame, m, KeyMsg("ctrl+p"));
      m'.choice == m.choice && m'.quitting == m.quitting
      && m'.list == w.update(w.cursorUp(m.list), KeyMsg("ctrl+p")).0
      && cmd == FromList(w.update(w.cursorUp(m.list), KeyMsg("ctrl+p")).1)
  {
  }

  /** A resize shrinks the widget by the frame, without clamping, and then
      forwards the message; `choice` and `quitting` are untouched. */
  lemma UpdateResize<L, C>(w: ListWidget<L, C>, hFrame: int, vFrame: int, m: Model<L>, width: int, height: int)
    ensures var msg := WindowSizeMsg(width, height);
      var (m', cmd) := Update(w, hFrame, vFrame, m, msg);
      m'.choice == m.choice && m'.quitting == m.quitting
      && m'.list == w.update(w.setSize(m.list, width - hFrame, height - vFrame), msg).0
      && cmd == FromList(w.update(w.setSize(m.list, width - hFrame, height - vFrame), msg).1)
  {
  }

  /** Every other key, and every other message, goes to the widget alone. */
  lemma UpdateOther<L, C>(w: ListWidget<L, C>, hFrame: int, vFrame: int, m: Model<L>, msg: Msg)
    requires msg.OtherMsg? || (msg.KeyMsg? && msg.key !in {"ctrl+c", "ctrl+n", "ctrl+p", "enter"})
    ensures Update(w, hFrame, vFrame, m, msg) == Forward(w, m, msg)
  {
  }

  /** The palette quits on its own exactly for `ctrl+c` and for `enter` on a
      selected item; only the latter changes `choice`, and nothing ever
      clears `quitting`. */
  lemma UpdateQuitsOnDecision<L, C>(w: ListWidget<L, C>, hFrame: int, vFrame: int, m: Model<L>, msg: Msg)
    ensures var (m', cmd) := Update(w, hFrame, vFrame, m, msg);
      var selects := msg == KeyMsg("enter") && w.selectedItem(m.list).Some?;
      (cmd == Quit <==> msg == KeyMsg("ctrl+c") || selects)
      && (m'.choice != m.choice ==> selects && m'.choice == w.selectedItem(m.list).value.title)
      && (m.quitting ==> m'.quitting)
      && (m'.quitting != m.quitting ==> msg == KeyMsg("ctrl+c"))
  {
  }

  // ---------------------------------------------------------------------
  // View
  // ---------------------------------------------------------------------

  /** After `ctrl+c` the view is the farewell line, whatever the list. */
  lemma ViewAfterCtrlC<L, C>(w: ListWidget<L, C>, hFrame: int, vFrame: int, m: Model<L>, render: L -> string)
    ensures View(Update(w, hFrame, vFrame, m, KeyMsg("ctrl+c")).0, render) == "quit april\n"
  {
  }

  /** Choosing an item does not set `quitting`, so the view still renders
      the list rather than the farewell line. */
  lemma ViewAfterSelect<L, C>(w: ListWidget<L, C>, hFrame: int, vFrame: int, m: Model<L>, render: L -> string)
    requires !m.quitting && w.selectedItem(m.list).Some?
    ensures View(Update(w, hFrame, vFrame, m, KeyMsg("enter")).0, render) == render(m.list)
  {
  }

  // ---------------------------------------------------------------------
  // The choice handed to the dispatcher
  // ---------------------------------------------------------------------

  /** The widget only ever selects entries of the catalog it was built from. */
  ghost predicate CatalogBacked<L(!new), C>(w: ListWidget<L, C>) {
    forall l :: w.selectedItem(l).Some? ==> w.selectedItem(l).value in Items
  }

  predicate ChoiceValid<L>(m: Model<L>) {
    m.choice == "" || IsTitle(m.choice)
  }

  /** Every transition keeps `choice` empty or a catalog title. */
  lemma UpdateKeepsChoiceValid<L(!new), C>(w: ListWidget<L, C>, hFrame: int, vFrame: int, m: Model<L>, msg: Msg)
    requires CatalogBacked(w) && ChoiceValid(m)
    ensures ChoiceValid(Update(w, hFrame, vFrame, m, msg).0)
  {
    var m' := Update(w, hFrame, vFrame, m, msg).0;
    if m'.choice != m.choice {
      UpdateQuitsOnDecision(w, hFrame, vFrame, m, msg);
      var it := w.selectedItem(m.list).value;
      assert it in Items;
      var i :| 0 <= i < |Items| && Items[i] == it;
      assert Items[i].title == m'.choice;
    }
  }

  /** The runtime feeds messages one at a time and stops at the first
      `Quit` the palette returns; the result is the final model. */
  function Run<L, C>(w: ListWidget<L, C>, hFrame: int, vFrame: int, m: Model<L>, msgs: seq<Msg>): Model<L>
    decreases |msgs|
  {
    if msgs == [] then m
    else
      var (m', cmd) := Update(w, hFrame, vFrame, m, msgs[0]);
      if cmd == Quit then m' else Run(w, hFrame, vFrame, m', msgs[1..])
  }

  /** Whatever messages arrive, the choice the palette ends with can be
      resolved by `main`: it is empty or a catalog title. */
  lemma {:induction false} RunChoiceDispatchable<L(!new), C>(
    w: ListWidget<L, C>, hFrame: int, vFrame: int, m: Model<L>, msgs: seq<Msg>)
    requires CatalogBacked(w) && ChoiceValid(m)
    ensures ChoiceValid(Run(w, hFrame, vFrame, m, msgs))
    ensures Dispatcher.Dispatchable(Run(w, hFrame, vFrame, m, msgs).choice)
    decreases |msgs|
  {
    if msgs != [] {
      UpdateKeepsChoiceValid(w, hFrame, vFrame, m, msgs[0]);
      var (m', cmd) := Update(w, hFrame, vFrame, m, msgs[0]);
      if cmd != Quit {
        RunChoiceDispatchable(w, hFrame, vFrame, m', msgs[1..]);
      }
    }
    var final := Run(w, hFrame, vFrame, m, msgs);
    if final.choice != "" {
      var i :| 0 <= i < |Items| && Items[i].title == final.choice;
      Dispatcher.CatalogDispatchable(i);
    }
  }

  /** Pressing `ctrl+c` first ends the run with no choice, so `main`
      dispatches nothing, whatever the read would have given. */
  lemma AbortAtStart<L, C>(w: ListWidget<L, C>, hFrame: int, vFrame: int, list: L,
                           rest: seq<Msg>, read: Dispatcher.ReadOutcome)
    ensures var final := Run(w, hFrame, vFrame, InitialModel(list), [KeyMsg("ctrl+c")] + rest);
      final.choice == "" && final.quitting
      && Dispatcher.Resolve(final.choice, read) == Dispatcher.NoAction
  {
    assert ([KeyMsg("ctrl+c")] + rest)[0] == KeyMsg("ctrl+c");
  }
}
