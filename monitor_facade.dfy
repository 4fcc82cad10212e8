/**
  The auto-hide monitor (`ContextMenuMonitor`): starts and stops the input-event watcher
  and the target-rectangle poller together, both wired to the one callback that hides
  the menu. The number of hide requests is the sum of both watchers' callback counters.
 */
module MonitorFacade {
  import opened Wrappers
  import opened Geometry
  import opened KeyCombo
  import opened JsText
  import opened InputWatch
  import opened RectWatch

  /** The fixed watch list: Escape, a mouse press, a window resize and a scroll. */
  const MonitorSpecs: seq<string> := ["keydown:27", "mousedown", "resize", "scroll"]

  class ContextMenuMonitor {
    const events: EventListener
    const poller: TargetRectListener

    ghost predicate Valid()
      reads this, poller
    {
      poller.Valid()
    }

    constructor ()
      ensures Valid() && fresh(events) && fresh(poller)
      ensures events.listeners == map[] && events.fired == 0
      ensures !poller.timer && !poller.stopped && poller.targetRect.None? && poller.changes == 0
    {
      events := new EventListener();
      poller := new TargetRectListener();
    }

    /** How many times the shared callback has asked the menu to hide. */
    function Hides(): nat
      reads this, events, poller
    {
      events.fired + poller.changes
    }

    /** `start`: assigns the callback, starts the poller (which, as written, schedules no
        tick) and registers the fixed watch list on top of whatever is registered. */
    method Start()
      modifies events`listeners, poller`onchangedSet, poller`stopped, poller`timer
      ensures Valid()
      ensures poller.onchangedSet && !poller.stopped && !poller.timer
      ensures poller.targetRect == old(poller.targetRect)
      ensures events.listeners == Registered(old(events.listeners), MonitorSpecs)
      ensures events.fired == old(events.fired) && poller.changes == old(poller.changes)
      ensures Hides() == old(Hides())
    {
      poller.onchangedSet := true;
      poller.Start();
      assert events.listeners == old(events.listeners) && events.fired == old(events.fired);
      assert poller.Valid() && poller.changes == old(poller.changes);
      events.Start(MonitorSpecs);
      assert events.fired == old(events.fired);
    }

    /** `stop`: stops the poller and empties the registry, whatever state they were in. */
    method Stop()
      modifies events`listeners, poller`stopped, poller`timer
      ensures Valid()
      ensures poller.stopped && !poller.timer
      ensures poller.targetRect == old(poller.targetRect) && poller.onchangedSet == old(poller.onchangedSet)
      ensures events.listeners == map[]
      ensures events.fired == old(events.fired) && poller.changes == old(poller.changes)
      ensures Hides() == old(Hides())
    {
      poller.Stop();
      events.Stop();
    }
  }

  /** On an empty registry, `start` records exactly the four watches, parsed: Escape for
      `keydown`, and no combo for the other three. */
  lemma MonitorSpecsRegistered()
    ensures Registered(map[], MonitorSpecs) == map[
      "keydown:27" := WatchSpec("keydown", ["27"]),
      "mousedown" := WatchSpec("mousedown", []),
      "resize" := WatchSpec("resize", []),
      "scroll" := WatchSpec("scroll", [])]
  {
    var w0, w1, w2, w3 := WatchSpec("keydown", ["27"]), WatchSpec("mousedown", []),
      WatchSpec("resize", []), WatchSpec("scroll", []);
    MonitorSpecsParse(w0, w1, w2, w3);
    RegisteredFour(MonitorSpecs, w0, w1, w2, w3);
  }

  /** Each of the four fixed specifications parses to its type, with `27` for `keydown`. */
  lemma MonitorSpecsParse(w0: WatchSpec, w1: WatchSpec, w2: WatchSpec, w3: WatchSpec)
    requires w0 == WatchSpec("keydown", ["27"]) && w1 == WatchSpec("mousedown", [])
    requires w2 == WatchSpec("resize", []) && w3 == WatchSpec("scroll", [])
    ensures ParseSpec(MonitorSpecs[0]) == Some(w0) && ParseSpec(MonitorSpecs[1]) == Some(w1)
    ensures ParseSpec(MonitorSpecs[2]) == Some(w2) && ParseSpec(MonitorSpecs[3]) == Some(w3)
  {
    ParseEscapeSpec();
    ParseLiteral(w1);
    ParseLiteral(w2);
    ParseLiteral(w3);
  }

  /** Four specifications that all parse, registered in order on an empty registry. */
  lemma RegisteredFour(specs: seq<string>, w0: WatchSpec, w1: WatchSpec, w2: WatchSpec, w3: WatchSpec)
    requires |specs| == 4
    requires ParseSpec(specs[0]) == Some(w0) && ParseSpec(specs[1]) == Some(w1)
    requires ParseSpec(specs[2]) == Some(w2) && ParseSpec(specs[3]) == Some(w3)
    ensures Registered(map[], specs) == map[][specs[0] := w0][specs[1] := w1][specs[2] := w2][specs[3] := w3]
  {
    assert specs[..1][..0] == [] && specs[..2][..1] == specs[..1];
    assert specs[..3][..2] == specs[..2] && specs[..4] == specs && specs[..4][..3] == specs[..3];
    assert Registered(map[], specs[..1][..0]) == map[];
    var r1 := Registered(map[], specs[..1]);
    assert r1 == map[specs[0] := w0];
    var r2 := Registered(map[], specs[..2]);
    assert r2 == r1[specs[1] := w1];
    var r3 := Registered(map[], specs[..3]);
    assert r3 == r2[specs[2] := w2];
  }

  lemma ParseEscapeSpec()
    ensures ParseSpec("keydown:27") == Some(WatchSpec("keydown", ["27"]))
  {
    var w := WatchSpec("keydown", ["27"]);
    var u := Unparse(w);
    assert u == "keydown:27" by {
      var parts := [w.eventType] + w.codes;
      assert parts == ["keydown", "27"] && parts[1..] == ["27"];
      assert Join(parts, ':') == "keydown" + [':'] + "27";
      assert "keydown" + [':'] + "27" == "keydown:27";
    }
    ParseLiteral(w);
  }

  lemma ParseLiteral(w: WatchSpec)
    requires w.eventType in {"keydown", "mousedown", "resize", "scroll"}
    requires w.codes == [] || w.codes == ["27"]
    ensures ParseSpec(Unparse(w)) == Some(w)
  {
    var u := Unparse(w);
    assert u[0] != ' ' && !IsSpace(u[0]);
    UnparseParses(w);
  }

  const NoModifiers := Modifiers(false, false, false, false)

  const CtrlOnly := Modifiers(false, true, false, false)

  /** Escape as browsers report it: keyCode and which 27, charCode 0. */
  function Escape(m: Modifiers): Event {
    KeyboardEvent(Some(27), Some(0), Some(27), m)
  }

  lemma EscapeCode(m: Modifiers)
    ensures KeyboardCode(Some(27), Some(0), Some(27)) == Some(27)
    ensures NumberToString(27) == "27"
    ensures KeyTokens(27, m) == ["27"] + ((if m.alt then ["alt"] else [])
      + ((if m.ctrl then ["ctrl"] else []) + ((if m.meta then ["meta"] else []) + (if m.shift then ["shift"] else []))))
  {
    assert NatToDecimal(27) == NatToDecimal(2) + [DigitChar(7)];
  }

  /** Escape without modifiers is dismissed by the `keydown:27` watch, whatever is open. */
  lemma EscapeDismisses(menus: seq<Rect>)
    ensures Fires(["27"], menus, Escape(NoModifiers))
  {
    EscapeCode(NoModifiers);
    assert KeyTokens(27, NoModifiers) == ["27"];
    Tokens27();
    SingleComboFires("27", menus, Escape(NoModifiers));
  }

  /** With any modifier held, Escape is not taken by `keydown:27`: the pressed combo then
      has more tokens than the declared one. */
  lemma ModifiedEscapeIgnored(m: Modifiers, menus: seq<Rect>)
    requires m.alt || m.ctrl || m.meta || m.shift
    ensures !Fires(["27"], menus, Escape(m))
  {
    var e := Escape(m);
    EscapeCode(m);
    ModifiedEscapeTokens(m);
    SingleComboFires("27", menus, e);
  }

  lemma ModifiedEscapeTokens(m: Modifiers)
    requires m.alt || m.ctrl || m.meta || m.shift
    ensures multiset(Tokens("27")) != multiset(KeyTokens(27, m))
  {
    Tokens27();
    EscapeCode(m);
    assert |multiset(Tokens("27"))| == 1;
    assert |multiset(KeyTokens(27, m))| == |KeyTokens(27, m)| > 1;
  }

  /** `27` declares the single token `27`. */
  lemma Tokens27()
    ensures Tokens("27") == ["27"]
  {
    assert "27" != "" && '+' !in "27" && NoSpace("27");
    TokensOfCleanJoin(["27"]);
    assert Join(["27"], '+') == "27";
  }

  /** Only key code 27 is taken by `keydown:27`: a key whose code is any other number is
      ignored, whatever modifiers are held. */
  lemma OtherKeyIgnored(menus: seq<Rect>, e: Event)
    requires e.KeyboardEvent? && KeyboardCode(e.keyCode, e.charCode, e.which).Some?
    requires KeyboardCode(e.keyCode, e.charCode, e.which).value != 27
    ensures !Fires(["27"], menus, e)
  {
    var n := KeyboardCode(e.keyCode, e.charCode, e.which).value;
    assert multiset(Tokens("27")) != multiset(KeyTokens(n, e.mods)) by {
      Tokens27();
      EscapeCode(e.mods);
      NumberToStringInjective(n, 27);
      assert NumberToString(n) in multiset(KeyTokens(n, e.mods));
      assert NumberToString(n) !in multiset(["27"]);
    }
    SingleComboFires("27", menus, e);
  }

  /** A declared combo with the tokens `ctrl` and `27`, in either order, takes Escape
      pressed with ctrl alone. */
  lemma CtrlEscapeDeclared(code: string, m: Modifiers, menus: seq<Rect>)
    requires m.ctrl && !m.alt && !m.meta && !m.shift
    requires multiset(Tokens(code)) == multiset{"ctrl", "27"}
    ensures Fires([code], menus, Escape(m))
  {
    CtrlEscapeTokens(m);
    SingleComboFires(code, menus, Escape(m));
  }

  /** With a single declared combo, a keyboard event fires exactly when the combo has the
      event's tokens. */
  lemma SingleComboFires(code: string, menus: seq<Rect>, e: Event)
    requires e.KeyboardEvent? && KeyboardCode(e.keyCode, e.charCode, e.which).Some?
    ensures var n := KeyboardCode(e.keyCode, e.charCode, e.which).value;
      Fires([code], menus, e) <==> multiset(Tokens(code)) == multiset(KeyTokens(n, e.mods))
  {
    KeyboardFiresIffSameTokens([code], menus, e);
    assert [code][0] == code;
  }

  lemma CtrlEscapeTokens(m: Modifiers)
    requires m.ctrl && !m.alt && !m.meta && !m.shift
    ensures KeyboardCode(Some(27), Some(0), Some(27)) == Some(27)
    ensures multiset(KeyTokens(27, m)) == multiset{"27", "ctrl"}
  {
    EscapeCode(m);
    assert KeyTokens(27, m) == ["27", "ctrl"];
  }

  /** `ctrl+27` declares the tokens `ctrl` and `27`. */
  lemma CtrlPlus27Tokens()
    ensures Tokens("ctrl+27") == ["ctrl", "27"]
  {
    TwoPieceTokens("ctrl", "27");
    assert Join(["ctrl", "27"], '+') == "ctrl+27";
  }

  /** `ctrl+27` in the watch list takes ctrl+Escape. */
  lemma CtrlEscapeDeclaredAsCtrlPlus27(menus: seq<Rect>)
    ensures Fires(["ctrl+27"], menus, Escape(CtrlOnly))
  {
    CtrlPlus27Tokens();
    CtrlEscapeDeclared("ctrl+27", CtrlOnly, menus);
  }

  lemma TwoPieceTokens(x: string, y: string)
    requires x in {"ctrl", "27"} && y in {"ctrl", "27"}
    ensures Tokens(Join([x, y], '+')) == [x, y]
  {
    assert x != "" && '+' !in x && NoSpace(x);
    assert y != "" && '+' !in y && NoSpace(y);
    TokensOfCleanJoin([x, y]);
  }

  /** A mouse press at (50,50) inside the only open menu, spanning (10,10)-(100,100), is not
      dismissed; the same press with no menu open is, by the `mousedown` watch. */
  lemma ClickInsideMenuScenario(button: Option<int>, m: Modifiers)
    ensures !Fires([], [Rect(10, 10, 100, 100)], MouseEvent(Point(50, 50), button, m))
    ensures Fires([], [], MouseEvent(Point(50, 50), button, m))
  {
  }
}
