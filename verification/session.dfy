/** The quick-save button's life cycle in content.js: a non-empty text
    selection shows a button, and clicking it opens the save dialog; a
    mousedown elsewhere, a scroll or the click removes it. The listeners
    that remove it are kept in the `mousedownListeners` set so that
    `removeQuickSaveButton` can unregister them. Listeners are named by
    numbers handed out in creation order. */
module QuickSave {
  import opened Options
  import opened Text

  /** `buttons` holds the selection text of each `#quick-save-btn` element
      in document order (its click handler opens the dialog with that
      text); `tracked` is the content of `mousedownListeners`;
      `mousedownOn` and `scrollOn` are the listeners registered for
      capture-phase `mousedown` on the document and for `scroll` on the
      window; `next` is the name of the next listener created. */
  datatype Session = Session(
    buttons: seq<string>,
    tracked: set<nat>,
    mousedownOn: set<nat>,
    scrollOn: set<nat>,
    next: nat)

  /** A page before any selection. */
  const Init: Session := Session([], {}, {}, {}, 0)

  /** What the user does. `MouseUp` stands for the debounced selection
      handler firing with the selection's text; `MouseDown` says whether
      the press is on the button. */
  datatype Event = MouseUp(selection: string) | MouseDown(onButton: bool) | Scroll | Click

  /** No button, no tracked or registered listener. */
  predicate Idle(s: Session) {
    s.buttons == [] && s.tracked == {} && s.mousedownOn == {} && s.scrollOn == {}
  }

  /** Exactly one button, carrying a trimmed non-empty selection, and the
      two listeners created with it: both tracked, one per event. */
  predicate Showing(s: Session) {
    |s.buttons| == 1 && s.buttons[0] != [] && IsTrimmed(s.buttons[0])
    && s.next >= 2
    && s.tracked == {s.next - 2, s.next - 1}
    && s.mousedownOn == {s.next - 2} && s.scrollOn == {s.next - 1}
  }

  /** The states the page can reach. */
  predicate Valid(s: Session) {
    Idle(s) || Showing(s)
  }

  /** `removeQuickSaveButton`: removes the first button found by id, then
      unregisters every tracked listener from both events and empties the
      set. Listeners that are registered but not tracked stay. */
  function Remove(s: Session): (r: Session)
    ensures r.tracked == {} && r.next == s.next
    ensures |r.buttons| == if s.buttons == [] then 0 else |s.buttons| - 1
    ensures s.buttons != [] ==> r.buttons == s.buttons[1..]
    ensures r.mousedownOn == s.mousedownOn - s.tracked && r.scrollOn == s.scrollOn - s.tracked
  {
    Session(if s.buttons == [] then [] else s.buttons[1..], {},
            s.mousedownOn - s.tracked, s.scrollOn - s.tracked, s.next)
  }

  /** The selection handler's branch for a non-empty selection `text`:
      remove any button, add a new one, empty the set (the loop there
      unregisters without the capture flag, which matches no capture
      listener, so it only clears the set), then create, register and
      track a mousedown and a scroll listener. */
  function Show(s: Session, text: string): (r: Session)
    ensures r.next == s.next + 2
    ensures r.buttons == Remove(s).buttons + [text]
    ensures r.tracked == {s.next, s.next + 1}
    ensures r.mousedownOn == (s.mousedownOn - s.tracked) + {s.next}
    ensures r.scrollOn == (s.scrollOn - s.tracked) + {s.next + 1}
  {
    var removed := Remove(s);
    var shown := removed.(buttons := removed.buttons + [text]);
    var cleared := shown.(tracked := {});
    var md, sc := cleared.next, cleared.next + 1;
    cleared.(tracked := {md, sc}, mousedownOn := cleared.mousedownOn + {md},
             scrollOn := cleared.scrollOn + {sc}, next := cleared.next + 2)
  }

  /** One event; the second component is the text of a save dialog the
      event opens. On a showing page a scroll, a press off the button or
      the click dismisses the button and both its listeners; a press on
      the button and a blank selection change nothing. */
  function Step(s: Session, e: Event): (r: (Session, Option<string>))
    ensures r.1.Some? ==> e.Click? && s.buttons != [] && r.1.value == s.buttons[0]
    ensures Showing(s) && (e.Scroll? || e.Click? || (e.MouseDown? && !e.onButton)) ==> Idle(r.0)
    ensures Showing(s) && e.Click? ==> r.1 == Some(s.buttons[0])
    ensures e.MouseDown? && e.onButton ==> r.0 == s
    ensures e.MouseUp? && Trim(e.selection) == [] ==> r.0 == s
    ensures Valid(s) && e.MouseUp? && Trim(e.selection) != [] ==>
              Showing(r.0) && r.0.buttons == [Trim(e.selection)]
  {
    match e
    case MouseUp(selection) =>
      var text := Trim(selection);
      if text == [] then (s, None)
      else
        assert Valid(s) ==> Showing(Show(s, text)) && Show(s, text).buttons == [text] by {
          if Valid(s) {
            TrimIsTrimmed(selection);
            ShowFromValid(s, text);
          }
        }
        (Show(s, text), None)
    case MouseDown(onButton) =>
      if s.mousedownOn != {} && !onButton then (Remove(s), None) else (s, None)
    case Scroll =>
      if s.scrollOn != {} then (Remove(s), None) else (s, None)
    case Click =>
      if s.buttons == [] then (s, None) else (Remove(s), Some(s.buttons[0]))
  }

  /** From a reachable state, removing the button leaves nothing behind:
      no button, no tracked and no registered listener. */
  lemma {:induction false} RemoveLeavesIdle(s: Session)
    requires Valid(s)
    ensures Idle(Remove(s))
  {
  }

  /** A non-empty selection in a reachable state shows exactly one button
      whose set tracks exactly the two new listeners. */
  lemma {:induction false} ShowFromValid(s: Session, text: string)
    requires Valid(s) && text != [] && IsTrimmed(text)
    ensures Showing(Show(s, text))
    ensures Show(s, text).buttons == [text]
  {
    var r := Show(s, text);
    assert Remove(s).buttons == [];
    assert s.mousedownOn - s.tracked == {};
    assert s.scrollOn - s.tracked == {};
    assert r.next - 2 == s.next;
  }

  /** Every event keeps the page in a reachable state; it follows from
      the cases `Step`'s contract states. */
  lemma {:induction false} StepKeepsValid(s: Session, e: Event)
    requires Valid(s)
    ensures Valid(Step(s, e).0)
  {
  }

  /** The page after a sequence of events. */
  function Run(s: Session, es: seq<Event>): Session
    decreases |es|
  {
    if es == [] then s else Run(Step(s, es[0]).0, es[1..])
  }

  /** Whatever the user does, there is at most one button, and every
      registered removal listener is tracked, so the next
      `removeQuickSaveButton` unregisters it. */
  lemma {:induction false} RunKeepsOneButton(s: Session, es: seq<Event>)
    requires Valid(s)
    ensures Valid(Run(s, es))
    ensures |Run(s, es).buttons| <= 1
    ensures Run(s, es).mousedownOn <= Run(s, es).tracked
    ensures Run(s, es).scrollOn <= Run(s, es).tracked
    decreases |es|
  {
    if es != [] {
      StepKeepsValid(s, es[0]);
      RunKeepsOneButton(Step(s, es[0]).0, es[1..]);
    }
  }

  /** After a selection shows the button, a scroll or a press elsewhere
      dismisses it without opening the dialog. */
  lemma {:induction false} SelectThenDismiss(s: Session, selection: string, e: Event)
    requires Valid(s) && Trim(selection) != []
    requires e.Scroll? || (e.MouseDown? && !e.onButton)
    ensures var shown := Step(s, MouseUp(selection)).0;
            var r := Step(shown, e);
            r.1 == None && Idle(r.0)
  {
    var shown := Step(s, MouseUp(selection)).0;
    assert Showing(shown);
  }

  /** Selecting text and clicking the button opens the dialog with the
      trimmed selection, and the click handler leaves the page idle. */
  lemma {:induction false} SelectThenClick(s: Session, selection: string)
    requires Valid(s) && Trim(selection) != []
    ensures var shown := Step(s, MouseUp(selection)).0;
            var r := Step(shown, Click);
            r.1 == Some(Trim(selection)) && Idle(r.0)
  {
    TrimIsTrimmed(selection);
    ShowFromValid(s, Trim(selection));
    RemoveLeavesIdle(Show(s, Trim(selection)));
  }
}
