/** The exam page's anti-cheating hook: while it is active it registers five
    document listeners that cancel the context menu, developer-tools and
    clipboard shortcuts, and the clipboard events themselves; its cleanup
    removes the same five. The key decision is a pure function of the key
    event; the document's listener list is a mutable set. Alert boxes are
    kept as the list of messages a handler raises. */
module AntiCheating {

  /** The fields of a `keydown` event the handler reads. */
  datatype KeyEvent = KeyEvent(key: string, keyCode: int, ctrlKey: bool, shiftKey: bool,
                               altKey: bool, metaKey: bool)

  /** The two messages the handlers alert. */
  datatype Alert = DevToolsDisabled | ClipboardDisabled

  /** What one handler does with one event: whether it calls
      `preventDefault`, the alerts it raises, in order, and whether it calls
      `click()` on the event's target. */
  datatype Handled = Handled(prevented: bool, alerts: seq<Alert>, clicked: bool)

  // ------------------------------------------------------------ keydown rules

  /** F12, by key name or by key code 123. */
  predicate F12Key(e: KeyEvent) {
    e.key == "F12" || e.keyCode == 123
  }

  /** Ctrl+Shift+I, either case of the letter. */
  predicate CtrlShiftI(e: KeyEvent) {
    e.ctrlKey && e.shiftKey && (e.key == "I" || e.key == "i")
  }

  /** Cmd+Option+I, lower-case letter only. */
  predicate MetaAltI(e: KeyEvent) {
    e.metaKey && e.altKey && e.key == "i"
  }

  /** The lower-case copy, paste and cut letters. */
  predicate ClipboardLetter(key: string) {
    key == "c" || key == "v" || key == "x"
  }

  predicate CtrlClipboard(e: KeyEvent) {
    e.ctrlKey && ClipboardLetter(e.key)
  }

  predicate MetaClipboard(e: KeyEvent) {
    e.metaKey && ClipboardLetter(e.key)
  }

  /** A shortcut that opens the developer tools. */
  predicate DevToolsShortcut(e: KeyEvent) {
    F12Key(e) || CtrlShiftI(e) || MetaAltI(e)
  }

  /** A copy, paste or cut shortcut. */
  predicate ClipboardShortcut(e: KeyEvent) {
    CtrlClipboard(e) || MetaClipboard(e)
  }

  /** One rule of the handler: when it fires, the default is cancelled and
      its message alerted. */
  function Rule(fires: bool, message: Alert): seq<Alert> {
    if fires then [message] else []
  }

  /** The alerts of the three developer-tools rules. */
  function DevToolsAlerts(e: KeyEvent): (r: seq<Alert>)
    ensures |r| <= 3 && (|r| > 0 <==> DevToolsShortcut(e))
    ensures forall i :: 0 <= i < |r| ==> r[i] == DevToolsDisabled
  {
    Rule(F12Key(e), DevToolsDisabled) + Rule(CtrlShiftI(e), DevToolsDisabled) + Rule(MetaAltI(e), DevToolsDisabled)
  }

  /** The alerts of the two clipboard rules. */
  function ClipboardAlerts(e: KeyEvent): (r: seq<Alert>)
    ensures |r| <= 2 && (|r| > 0 <==> ClipboardShortcut(e))
    ensures forall i :: 0 <= i < |r| ==> r[i] == ClipboardDisabled
  {
    Rule(CtrlClipboard(e), ClipboardDisabled) + Rule(MetaClipboard(e), ClipboardDisabled)
  }

  /** `handleKeyDown`: five independent checks in order, each cancelling the
      default and alerting its message; several can fire on one event. */
  function KeyDown(e: KeyEvent): (h: Handled)
    ensures h.prevented <==> DevToolsShortcut(e) || ClipboardShortcut(e)
    ensures h.prevented <==> |h.alerts| > 0
    ensures DevToolsDisabled in h.alerts <==> DevToolsShortcut(e)
    ensures ClipboardDisabled in h.alerts <==> ClipboardShortcut(e)
    ensures |h.alerts| <= 5 && !h.clicked
    ensures forall i, j :: 0 <= i < j < |h.alerts| && h.alerts[j] == DevToolsDisabled ==> h.alerts[i] == DevToolsDisabled
  {
    var dev, clip := DevToolsAlerts(e), ClipboardAlerts(e);
    assert DevToolsDisabled in dev + clip <==> |dev| > 0 by {
      if |dev| > 0 { assert (dev + clip)[0] == DevToolsDisabled; }
    }
    assert ClipboardDisabled in dev + clip <==> |clip| > 0 by {
      if |clip| > 0 { assert (dev + clip)[|dev|] == ClipboardDisabled; }
    }
    Handled(|dev + clip| > 0, dev + clip, false)
  }

  /** Keys pressed without Ctrl or Cmd, other than F12, reach the page:
      typing an answer is never cancelled. */
  lemma PlainTypingAllowed(e: KeyEvent)
    requires !e.ctrlKey && !e.metaKey && !F12Key(e)
    ensures !KeyDown(e).prevented && KeyDown(e).alerts == []
  {
  }

  /** Ctrl+C is cancelled whatever other modifiers are held. */
  lemma CtrlCopyBlocked(e: KeyEvent)
    requires e.ctrlKey && e.key == "c"
    ensures KeyDown(e).prevented && ClipboardDisabled in KeyDown(e).alerts
  {
  }

  /** Only the lower-case letter is checked for the Mac developer-tools and
      clipboard shortcuts: Cmd+Option with an upper-case `I`, and Cmd with an
      upper-case `C`, are not cancelled by the key handler. */
  lemma UpperCaseLettersPass(e: KeyEvent)
    requires !e.ctrlKey && !F12Key(e)
    requires e.key == "I" || e.key == "C" || e.key == "V" || e.key == "X"
    ensures !KeyDown(e).prevented
  {
  }

  /** F12 with Ctrl+Shift and the key name `i` (key code 123 with a remapped
      key) fires two rules, and so alerts twice. */
  lemma RulesAccumulate()
    ensures KeyDown(KeyEvent("i", 123, true, true, false, false)).alerts == [DevToolsDisabled, DevToolsDisabled]
  {
  }

  // ------------------------------------------------------------ the other handlers

  /** The element a right-click lands on, and whether it has a `click`
      function. */
  datatype Target = NoTarget | Element(clickable: bool)

  /** `handleContextMenu`: the menu is always cancelled, and the target is
      clicked when it can be, so a right-click acts as a left-click. */
  function ContextMenu(target: Target): (h: Handled)
    ensures h.prevented && h.alerts == []
    ensures h.clicked <==> target.Element? && target.clickable
  {
    Handled(true, [], target != NoTarget && target.clickable)
  }

  /** `handleClipboardEvents`: copy, paste and cut are always cancelled. */
  function Clipboard(): (h: Handled)
    ensures h.prevented && h.alerts == [ClipboardDisabled] && !h.clicked
  {
    Handled(true, [ClipboardDisabled], false)
  }

  // ------------------------------------------------------------ the document

  datatype EventType = ContextMenuType | KeyDownType | CopyType | PasteType | CutType

  datatype Event =
    | ContextMenuEvent(target: Target)
    | KeyDownEvent(k: KeyEvent)
    | CopyEvent
    | PasteEvent
    | CutEvent

  function TypeOf(ev: Event): EventType {
    match ev
    case ContextMenuEvent(_) => ContextMenuType
    case KeyDownEvent(_) => KeyDownType
    case CopyEvent => CopyType
    case PasteEvent => PasteType
    case CutEvent => CutType
  }

  datatype Handler = ContextMenuHandler | KeyDownHandler | ClipboardHandler

  /** A registered listener: the event type, the handler, and the effect run
      that created the handler (each run makes fresh functions, so listeners
      of different runs are different listeners). */
  datatype Listener = Listener(event: EventType, handler: Handler, run: nat)

  /** What a handler does with an event of the type it was registered for. */
  function Handle(h: Handler, ev: Event): Handled {
    match h
    case ContextMenuHandler => ContextMenu(if ev.ContextMenuEvent? then ev.target else NoTarget)
    case KeyDownHandler => if ev.KeyDownEvent? then KeyDown(ev.k) else Handled(false, [], false)
    case ClipboardHandler => Clipboard()
  }

  /** The default action of `ev` is cancelled by some listener for its type. */
  predicate Prevented(listeners: set<Listener>, ev: Event) {
    exists l :: l in listeners && l.event == TypeOf(ev) && Handle(l.handler, ev).prevented
  }

  /** Some listener for its type clicks the event's target. */
  predicate Clicked(listeners: set<Listener>, ev: Event) {
    exists l :: l in listeners && l.event == TypeOf(ev) && Handle(l.handler, ev).clicked
  }

  /** The five listeners one active run of the hook registers. */
  function HookListeners(run: nat): (s: set<Listener>)
    ensures |s| == 5
    ensures forall l :: l in s ==> l.run == run
  {
    var s := {Listener(ContextMenuType, ContextMenuHandler, run), Listener(KeyDownType, KeyDownHandler, run),
              Listener(CopyType, ClipboardHandler, run), Listener(PasteType, ClipboardHandler, run),
              Listener(CutType, ClipboardHandler, run)};
    assert |s| == 5;
    s
  }

  /** The page's `document` and its listener list. Adding a listener that is
      already registered changes nothing, as in the DOM. */
  class Document {
    var listeners: set<Listener>

    constructor ()
      ensures listeners == {}
    {
      listeners := {};
    }

    method AddEventListener(event: EventType, handler: Handler, run: nat)
      modifies this
      ensures listeners == old(listeners) + {Listener(event, handler, run)}
    {
      listeners := listeners + {Listener(event, handler, run)};
    }

    method RemoveEventListener(event: EventType, handler: Handler, run: nat)
      modifies this
      ensures listeners == old(listeners) - {Listener(event, handler, run)}
    {
      listeners := listeners - {Listener(event, handler, run)};
    }
  }

  /** `useAntiCheating`'s effect, run number `run`: inactive, it registers
      nothing and has no cleanup; active, it registers the five listeners
      and hands back the run its cleanup must undo. */
  method RunEffect(doc: Document, isActive: bool, run: nat) returns (cleanup: bool)
    modifies doc
    ensures cleanup == isActive
    ensures !isActive ==> doc.listeners == old(doc.listeners)
    ensures isActive ==> doc.listeners == old(doc.listeners) + HookListeners(run)
  {
    if !isActive {
      return false;
    }
    doc.AddEventListener(ContextMenuType, ContextMenuHandler, run);
    doc.AddEventListener(KeyDownType, KeyDownHandler, run);
    doc.AddEventListener(CopyType, ClipboardHandler, run);
    doc.AddEventListener(PasteType, ClipboardHandler, run);
    doc.AddEventListener(CutType, ClipboardHandler, run);
    cleanup := true;
  }

  /** The effect's cleanup: removes the five listeners of that run. */
  method Cleanup(doc: Document, run: nat)
    modifies doc
    ensures doc.listeners == old(doc.listeners) - HookListeners(run)
  {
    doc.RemoveEventListener(ContextMenuType, ContextMenuHandler, run);
    doc.RemoveEventListener(KeyDownType, KeyDownHandler, run);
    doc.RemoveEventListener(CopyType, ClipboardHandler, run);
    doc.RemoveEventListener(PasteType, ClipboardHandler, run);
    doc.RemoveEventListener(CutType, ClipboardHandler, run);
  }

  /** Cleanup undoes registration exactly: listeners that were there before
      and are not the run's own stay, and nothing of the run is left. */
  lemma CleanupRestores(before: set<Listener>, run: nat)
    requires before !! HookListeners(run)
    ensures (before + HookListeners(run)) - HookListeners(run) == before
  {
  }

  /** The cleanup of one run leaves the listeners of another run in place. */
  lemma CleanupSparesOtherRun(current: nat, stale: nat)
    requires current != stale
    ensures (HookListeners(current) + HookListeners(stale)) - HookListeners(stale) == HookListeners(current)
  {
    assert HookListeners(current) !! HookListeners(stale);
  }

  /** With the hook active, copy, paste and cut are cancelled whatever else
      is registered. */
  lemma ActiveHookBlocksClipboard(others: set<Listener>, run: nat, ev: Event)
    requires ev == CopyEvent || ev == PasteEvent || ev == CutEvent
    ensures Prevented(others + HookListeners(run), ev)
  {
    var l := Listener(TypeOf(ev), ClipboardHandler, run);
    assert l in HookListeners(run);
  }

  /** With only the hook's listeners, a key press is cancelled exactly when
      it is one of the blocked shortcuts. */
  lemma HookKeyDownExactly(run: nat, e: KeyEvent)
    ensures Prevented(HookListeners(run), KeyDownEvent(e)) <==> DevToolsShortcut(e) || ClipboardShortcut(e)
  {
    var l := Listener(KeyDownType, KeyDownHandler, run);
    assert l in HookListeners(run);
  }

  /** With the hook active, every right-click is cancelled, and the target is
      clicked exactly when it is a clickable element. */
  lemma HookContextMenu(run: nat, target: Target)
    ensures Prevented(HookListeners(run), ContextMenuEvent(target))
    ensures Clicked(HookListeners(run), ContextMenuEvent(target)) <==> target.Element? && target.clickable
  {
    var l := Listener(ContextMenuType, ContextMenuHandler, run);
    assert l in HookListeners(run);
  }

  /** A copy shortcut typed with an upper-case letter passes the key handler,
      but the copy it triggers is still cancelled by the clipboard handler. */
  lemma UpperCaseCopyStillCancelled(run: nat, e: KeyEvent)
    requires e.key == "C" && !F12Key(e)
    ensures !Prevented(HookListeners(run), KeyDownEvent(e))
    ensures Prevented(HookListeners(run), CopyEvent)
  {
    HookKeyDownExactly(run, e);
    ActiveHookBlocksClipboard({}, run, CopyEvent);
    assert {} + HookListeners(run) == HookListeners(run);
  }

  /** Mounted and then cleaned up on a page with no other listeners, the
      hook leaves nothing cancelled. */
  lemma NothingAfterCleanup(run: nat, ev: Event)
    ensures !Prevented(({} + HookListeners(run)) - HookListeners(run), ev)
  {
    CleanupRestores({}, run);
  }
}
