/**
  The input-event watcher (`EventListener` of `src/presenter/ContextMenuMonitor.ts`):
  parsing of watch specifications `type:code1:code2…`, the per-event decision of the
  listener it installs, and the registry of installed listeners.

  A listener is the closure `start` builds for one specification; it is modelled by the
  `WatchSpec` it closes over, and its body by `EventListener.Deliver`. The `onevent`
  callback is modelled by the counter `fired` of its invocations.
 */
module InputWatch {
  import opened Wrappers
  import opened JsText
  import opened KeyCombo
  import opened Geometry

  // ---------------------------------------------------------------- events

  /** Which modifier keys the event reports as held. */
  datatype Modifiers = Modifiers(alt: bool, ctrl: bool, meta: bool, shift: bool)

  /** The captured DOM event, by the branch of the listener it takes: `instanceof
      MouseEvent`, `instanceof KeyboardEvent`, or anything else (resize, scroll). */
  datatype Event =
    | MouseEvent(point: Point, button: Option<int>, mods: Modifiers)
    | KeyboardEvent(keyCode: Option<int>, charCode: Option<int>, which: Option<int>, mods: Modifiers)
    | OtherEvent

  // ---------------------------------------------------------------- watch specifications

  /** A parsed specification: the event type and the declared key combos. */
  datatype WatchSpec = WatchSpec(eventType: string, codes: seq<string>)

  /** One pass of the loop in `start`: a specification that is blank once trimmed is
      skipped; otherwise the text before the first `:` is the type and the remaining
      `:`-separated pieces are the codes. */
  function ParseSpec(spec: string): (r: Option<WatchSpec>)
    ensures r.None? <==> AllSpace(spec)
    ensures r.Some? ==> ':' !in r.value.eventType
    ensures r.Some? ==> forall i :: 0 <= i < |r.value.codes| ==> ':' !in r.value.codes[i]
  {
    TrimEmptyIffAllSpace(spec);
    if |Trim(spec)| == 0 then None
    else
      var splits := Split(spec, ':');
      SplitSepFree(spec, ':');
      assert forall i :: 0 <= i < |splits| - 1 ==> splits[1..][i] == splits[i + 1];
      Some(WatchSpec(splits[0], splits[1..]))
  }

  /** The specification text a parsed specification stands for. */
  function Unparse(w: WatchSpec): string {
    Join([w.eventType] + w.codes, ':')
  }

  /** Parsing loses nothing: the type and the codes rejoined with `:` are the specification. */
  lemma ParseSpecRoundTrip(spec: string)
    requires !AllSpace(spec)
    ensures ParseSpec(spec).Some? && Unparse(ParseSpec(spec).value) == spec
  {
    var splits := Split(spec, ':');
    assert [splits[0]] + splits[1..] == splits;
    JoinSplit(spec, ':');
  }

  /** Conversely, a specification built from a type and codes free of `:` parses back to them. */
  lemma UnparseParses(w: WatchSpec)
    requires ':' !in w.eventType
    requires forall i :: 0 <= i < |w.codes| ==> ':' !in w.codes[i]
    requires !AllSpace(Unparse(w))
    ensures ParseSpec(Unparse(w)) == Some(w)
  {
    var pieces := [w.eventType] + w.codes;
    assert forall i :: 0 <= i < |pieces| ==> ':' !in pieces[i] by {
      forall i | 0 <= i < |pieces| ensures ':' !in pieces[i] {
        if i > 0 { assert pieces[i] == w.codes[i - 1]; }
      }
    }
    SplitJoin(pieces, ':');
    assert pieces[1..] == w.codes;
  }

  // ---------------------------------------------------------------- pressed combos

  /** The code slot of the `keys` array: `'' + code`, or `''` when the code is absent. */
  function CodeSlot(code: Option<int>): string {
    if code.Some? then NumberToString(code.value) else ""
  }

  /** The five-slot `keys` array of the mouse branch. As written, the ctrl, meta and
      shift slots all hold `'alt'`. */
  function MouseSlots(button: Option<int>, m: Modifiers): seq<string> {
    [ CodeSlot(button)
    , if m.alt then "alt" else ""
    , if m.ctrl then "alt" else ""
    , if m.meta then "alt" else ""
    , if m.shift then "alt" else ""
    ]
  }

  /** The five-slot `keys` array of the keyboard branch. */
  function KeyboardSlots(code: Option<int>, m: Modifiers): seq<string> {
    [ CodeSlot(code)
    , if m.alt then "alt" else ""
    , if m.ctrl then "ctrl" else ""
    , if m.meta then "meta" else ""
    , if m.shift then "shift" else ""
    ]
  }

  /** `keys.join('+')`: absent slots leave runs of `+` such as `"27++++"`. */
  function MouseCombo(button: Option<int>, m: Modifiers): string {
    Join(MouseSlots(button, m), '+')
  }

  function KeyboardCombo(code: Option<int>, m: Modifiers): string {
    Join(KeyboardSlots(code, m), '+')
  }

  /** `Math.max` of the defined values so far with one more optional field. */
  function MaxDefined(code: Option<int>, field: Option<int>): Option<int> {
    if field.None? then code
    else if code.None? then field
    else Some(if code.value >= field.value then code.value else field.value)
  }

  /** The keyboard code: the largest of whichever of keyCode, charCode and which are present. */
  function KeyboardCode(keyCode: Option<int>, charCode: Option<int>, which: Option<int>): (r: Option<int>)
    ensures r.None? <==> keyCode.None? && charCode.None? && which.None?
    ensures r.Some? ==> ((keyCode.Some? ==> keyCode.value <= r.value)
                      && (charCode.Some? ==> charCode.value <= r.value)
                      && (which.Some? ==> which.value <= r.value))
    ensures r.Some? ==> r == keyCode || r == charCode || r == which
  {
    MaxDefined(MaxDefined(MaxDefined(None, keyCode), charCode), which)
  }

  // ---------------------------------------------------------------- tokens of the pressed combos

  /** The tokens a keyboard event with code `n` presents: the code, then the names of
      the held modifiers. */
  function KeyTokens(n: int, m: Modifiers): seq<string> {
    [NumberToString(n)]
    + ((if m.alt then ["alt"] else [])
    + ((if m.ctrl then ["ctrl"] else [])
    + ((if m.meta then ["meta"] else [])
    + (if m.shift then ["shift"] else []))))
  }

  /** Number of held modifiers among alt, ctrl, meta and shift. */
  function Pressed(m: Modifiers): nat {
    (if m.alt then 1 else 0) + (if m.ctrl then 1 else 0) + (if m.meta then 1 else 0) + (if m.shift then 1 else 0)
  }

  /** The tokens a mouse event with button `b` presents: the button, then one `alt` per
      held modifier, whichever modifier it is. */
  function MouseTokens(b: int, m: Modifiers): seq<string> {
    [NumberToString(b)]
    + ((if m.alt then ["alt"] else [])
    + ((if m.ctrl then ["alt"] else [])
    + ((if m.meta then ["alt"] else [])
    + (if m.shift then ["alt"] else []))))
  }

  lemma CodeSlotClean(code: Option<int>)
    ensures '+' !in CodeSlot(code) && NoSpace(CodeSlot(code))
    ensures code.Some? ==> CodeSlot(code) != ""
  {
    var s := CodeSlot(code);
    assert forall i :: 0 <= i < |s| ==> s[i] == '-' || '0' <= s[i] <= '9';
  }

  /** Every slot of a `keys` array is free of `+` and white space. */
  lemma SlotsClean(s: seq<string>, code: Option<int>)
    requires |s| == 5 && s[0] == CodeSlot(code)
    requires forall i :: 1 <= i < 5 ==> s[i] in {"", "alt", "ctrl", "meta", "shift"}
    ensures forall i :: 0 <= i < |s| ==> '+' !in s[i] && NoSpace(s[i])
  {
    CodeSlotClean(code);
    assert '+' !in "alt" && NoSpace("alt") && '+' !in "ctrl" && NoSpace("ctrl");
    assert '+' !in "meta" && NoSpace("meta") && '+' !in "shift" && NoSpace("shift");
  }

  /** The tokens of a `keys` array whose code slot is filled are its filled slots. */
  lemma SlotTokens(s: seq<string>, code: Option<int>)
    requires |s| == 5 && s[0] == CodeSlot(code) && code.Some?
    requires forall i :: 1 <= i < 5 ==> s[i] in {"", "alt", "ctrl", "meta", "shift"}
    ensures Tokens(Join(s, '+')) == [s[0]] + (Filled(s[1]) + (Filled(s[2]) + (Filled(s[3]) + Filled(s[4]))))
  {
    SlotsClean(s, code);
    CodeSlotClean(code);
    TokensOfJoin(s);
    NonEmptyOfSlots(s);
  }

  /** A keyboard event with a code presents exactly its code and the names of its held modifiers. */
  lemma KeyboardComboTokens(n: int, m: Modifiers)
    ensures Tokens(KeyboardCombo(Some(n), m)) == KeyTokens(n, m)
  {
    SlotTokens(KeyboardSlots(Some(n), m), Some(n));
  }

  /** A mouse event with a button presents its button and one `alt` per held modifier. */
  lemma MouseComboTokens(b: int, m: Modifiers)
    ensures Tokens(MouseCombo(Some(b), m)) == MouseTokens(b, m)
  {
    SlotTokens(MouseSlots(Some(b), m), Some(b));
  }

  /** The non-empty pieces of a five-slot array, unfolded. */
  lemma NonEmptyOfSlots(s: seq<string>)
    requires |s| == 5 && s[0] != ""
    ensures NonEmpty(s) == [s[0]] + (Filled(s[1]) + (Filled(s[2]) + (Filled(s[3]) + Filled(s[4]))))
  {
    var s1, s2, s3, s4 := s[1..], s[2..], s[3..], s[4..];
    assert s1[0] == s[1] && s1[1..] == s2;
    assert s2[0] == s[2] && s2[1..] == s3;
    assert s3[0] == s[3] && s3[1..] == s4;
    assert s4[0] == s[4] && s4[1..] == [];
    NonEmptyCons(s);
    NonEmptyCons(s1);
    NonEmptyCons(s2);
    NonEmptyCons(s3);
    NonEmptyCons(s4);
    assert NonEmpty(s4) == Filled(s[4]) by {
      assert NonEmpty(s4[1..]) == [];
    }
    assert NonEmpty(s3) == Filled(s[3]) + Filled(s[4]);
    assert NonEmpty(s2) == Filled(s[2]) + (Filled(s[3]) + Filled(s[4]));
    assert NonEmpty(s1) == Filled(s[1]) + (Filled(s[2]) + (Filled(s[3]) + Filled(s[4])));
  }

  // ---------------------------------------------------------------- the listener's decision

  /** Whether the listener built for declared `codes` calls `onevent` for `e`, given the
      rectangles of the open menu views (root first). */
  predicate Fires(codes: seq<string>, menus: seq<Rect>, e: Event) {
    match e
    case MouseEvent(p, button, mods) =>
      && |menus| <= 1
      && !(|menus| == 1 && Inside(p, menus[0]))
      && (|codes| == 0 || AnyMatch(codes, MouseCombo(button, mods)))
    case KeyboardEvent(keyCode, charCode, which, mods) =>
      AnyMatch(codes, KeyboardCombo(KeyboardCode(keyCode, charCode, which), mods))
    case OtherEvent =>
      |codes| == 0
  }

  /** Mouse events: never while a submenu is open, never inside the single root menu
      (edges included); otherwise whenever no combo is declared or the pressed one matches. */
  lemma MouseDecision(codes: seq<string>, menus: seq<Rect>, p: Point, button: Option<int>, m: Modifiers)
    ensures |menus| > 1 ==> !Fires(codes, menus, MouseEvent(p, button, m))
    ensures |menus| == 1 && Inside(p, menus[0]) ==> !Fires(codes, menus, MouseEvent(p, button, m))
    ensures |menus| == 0 || (|menus| == 1 && !Inside(p, menus[0])) ==>
      (Fires(codes, menus, MouseEvent(p, button, m)) <==>
        (codes == [] || exists i :: 0 <= i < |codes| && EqualsKey(codes[i], MouseCombo(button, m))))
  {
    AnyMatchIff(codes, MouseCombo(button, m));
  }

  /** Keyboard events fire exactly when a declared combo matches the pressed one, so never
      without declared combos; any other event fires exactly when no combo is declared. */
  lemma KeyboardAndOtherDecision(codes: seq<string>, menus: seq<Rect>, e: Event)
    ensures e.KeyboardEvent? ==>
      (Fires(codes, menus, e) <==>
        exists i :: 0 <= i < |codes| && EqualsKey(codes[i], KeyboardCombo(KeyboardCode(e.keyCode, e.charCode, e.which), e.mods)))
    ensures e.KeyboardEvent? && codes == [] ==> !Fires(codes, menus, e)
    ensures e.OtherEvent? ==> (Fires(codes, menus, e) <==> codes == [])
  {
    if e.KeyboardEvent? {
      AnyMatchIff(codes, KeyboardCombo(KeyboardCode(e.keyCode, e.charCode, e.which), e.mods));
    }
  }

  /** A keyboard event with a code fires exactly when some declared combo has the same
      tokens as the event's code plus the names of its held modifiers, in any order. */
  lemma KeyboardFiresIffSameTokens(codes: seq<string>, menus: seq<Rect>, e: Event)
    requires e.KeyboardEvent? && KeyboardCode(e.keyCode, e.charCode, e.which).Some?
    ensures var n := KeyboardCode(e.keyCode, e.charCode, e.which).value;
      Fires(codes, menus, e) <==>
        exists i :: 0 <= i < |codes| && multiset(Tokens(codes[i])) == multiset(KeyTokens(n, e.mods))
  {
    var code := KeyboardCode(e.keyCode, e.charCode, e.which);
    var combo := KeyboardCombo(code, e.mods);
    KeyboardComboTokens(code.value, e.mods);
    AnyMatchIff(codes, combo);
    forall i | 0 <= i < |codes| {
      EqualsKeyIffSameTokens(codes[i], combo);
    }
  }

  /** Outside the menus, a mouse event with a button fires exactly when no combo is declared
      or some declared combo has the tokens of the button plus one `alt` per held modifier. */
  lemma MouseFiresIffSameTokens(codes: seq<string>, menus: seq<Rect>, p: Point, b: int, m: Modifiers)
    requires |menus| == 0 || (|menus| == 1 && !Inside(p, menus[0]))
    ensures Fires(codes, menus, MouseEvent(p, Some(b), m)) <==>
      (codes == [] || exists i :: 0 <= i < |codes| && multiset(Tokens(codes[i])) == multiset(MouseTokens(b, m)))
  {
    var combo := MouseCombo(Some(b), m);
    MouseComboTokens(b, m);
    AnyMatchIff(codes, combo);
    forall i | 0 <= i < |codes| {
      EqualsKeyIffSameTokens(codes[i], combo);
    }
  }

  /** The mouse branch cannot tell modifiers apart: any two sets of held modifiers of the
      same size give the same decision. */
  lemma MouseModifiersOnlyCounted(codes: seq<string>, menus: seq<Rect>, p: Point, b: int, m1: Modifiers, m2: Modifiers)
    requires Pressed(m1) == Pressed(m2)
    ensures Fires(codes, menus, MouseEvent(p, Some(b), m1)) == Fires(codes, menus, MouseEvent(p, Some(b), m2))
  {
    MouseTokensMultiset(b, m1);
    MouseTokensMultiset(b, m2);
    if |menus| == 0 || (|menus| == 1 && !Inside(p, menus[0])) {
      MouseFiresIffSameTokens(codes, menus, p, b, m1);
      MouseFiresIffSameTokens(codes, menus, p, b, m2);
    }
  }

  /** As a consequence, a declared combo naming ctrl, meta or shift never matches a mouse event. */
  lemma MouseNeverMatchesCtrlMetaShift(code: string, b: int, m: Modifiers)
    requires "ctrl" in Tokens(code) || "meta" in Tokens(code) || "shift" in Tokens(code)
    ensures !EqualsKey(code, MouseCombo(Some(b), m))
  {
    var t := multiset(Tokens(code));
    var expected := multiset{NumberToString(b)}["alt" := Pressed(m)];
    NumberToStringNotName(b);
    assert expected["ctrl"] == 0 && expected["meta"] == 0 && expected["shift"] == 0;
    assert t["ctrl"] > 0 || t["meta"] > 0 || t["shift"] > 0;
    assert t != expected;
    MouseComboTokens(b, m);
    MouseTokensMultiset(b, m);
    EqualsKeyIffSameTokens(code, MouseCombo(Some(b), m));
  }

  /** A decimal number is never one of the modifier names. */
  lemma NumberToStringNotName(n: int)
    ensures var s := NumberToString(n); s != "alt" && s != "ctrl" && s != "meta" && s != "shift"
  {
    var s := NumberToString(n);
    assert s[0] == '-' || '0' <= s[0] <= '9';
  }

  /** The mouse tokens are the button and `Pressed(m)` copies of `alt`. */
  lemma MouseTokensMultiset(b: int, m: Modifiers)
    ensures multiset(MouseTokens(b, m)) == multiset{NumberToString(b)}["alt" := Pressed(m)]
  {
    var n := NumberToString(b);
    NumberToStringNotName(b);
    var alts := MouseTokens(b, m)[1..];
    assert MouseTokens(b, m) == [n] + alts;
    assert multiset(alts) == multiset{}["alt" := Pressed(m)] by {
      HeldAlts(m, alts);
    }
    assert multiset([n] + alts) == multiset{n} + multiset(alts);
    AddAlts(n, Pressed(m));
  }

  /** After the button, the mouse tokens are `Pressed(m)` copies of `alt`. */
  lemma HeldAlts(m: Modifiers, alts: seq<string>)
    requires alts == (if m.alt then ["alt"] else []) + ((if m.ctrl then ["alt"] else [])
      + ((if m.meta then ["alt"] else []) + (if m.shift then ["alt"] else [])))
    ensures multiset(alts) == multiset{}["alt" := Pressed(m)]
  {
    assert |alts| == Pressed(m);
    assert forall i :: 0 <= i < |alts| ==> alts[i] == "alt";
    AllAltCount(alts);
  }

  lemma AddAlts(n: string, k: nat)
    requires n != "alt"
    ensures multiset{n} + multiset{}["alt" := k] == multiset{n}["alt" := k]
  {
  }

  /** A sequence of `alt` tokens counts as that many `alt`. */
  lemma {:induction false} AllAltCount(t: seq<string>)
    requires forall i :: 0 <= i < |t| ==> t[i] == "alt"
    ensures multiset(t) == multiset{}["alt" := |t|]
  {
    if |t| > 0 {
      AllAltCount(t[1..]);
      assert t == [t[0]] + t[1..];
    }
  }

  // ---------------------------------------------------------------- the registry

  /** The listener registry after `start` has gone through `specs` from `m`: each
      non-blank specification is mapped to its parsed form, later ones overwriting. */
  function Registered(m: map<string, WatchSpec>, specs: seq<string>): map<string, WatchSpec> {
    if |specs| == 0 then m
    else
      var before := Registered(m, specs[..|specs| - 1]);
      var spec := specs[|specs| - 1];
      match ParseSpec(spec)
      case None => before
      case Some(w) => before[spec := w]
  }

  /** `start` adds exactly the non-blank specifications as keys, each mapped to its parse,
      and leaves every other entry as it was. */
  lemma {:induction false} RegisteredEntries(m: map<string, WatchSpec>, specs: seq<string>)
    ensures forall k :: k in Registered(m, specs) <==> k in m || (k in specs && !AllSpace(k))
    ensures forall k :: k in specs && !AllSpace(k) ==> Registered(m, specs)[k] == ParseSpec(k).value
    ensures forall k :: k in m && (k !in specs || AllSpace(k)) ==> Registered(m, specs)[k] == m[k]
  {
    if |specs| > 0 {
      var init := specs[..|specs| - 1];
      RegisteredEntries(m, init);
      assert specs == init + [specs[|specs| - 1]];
      assert forall k :: k in specs <==> k in init || k == specs[|specs| - 1];
    }
  }

  /** The input-event watcher: the static registry `listeners` and the number of
      `onevent` invocations. */
  class EventListener {
    var listeners: map<string, WatchSpec>
    var fired: nat

    constructor ()
      ensures listeners == map[] && fired == 0
    {
      listeners := map[];
      fired := 0;
    }

    /** `stop`: empties the registry. (The window listeners themselves are not modelled.) */
    method Stop()
      modifies this`listeners
      ensures listeners == map[]
    {
      listeners := map[];
    }

    /** `start(events)`: parses each specification and records it under its text. */
    method Start(specs: seq<string>)
      modifies this`listeners
      ensures listeners == Registered(old(listeners), specs)
    {
      for i := 0 to |specs|
        invariant listeners == Registered(old(listeners), specs[..i])
      {
        assert specs[..i + 1][..i] == specs[..i];
        var parsed := ParseSpec(specs[i]);
        if parsed.None? {
          continue;
        }
        listeners := listeners[specs[i] := parsed.value];
      }
      assert specs[..|specs|] == specs;
    }

    /** The body of the listener installed for `w`, run on the captured event `e`. */
    method Deliver(w: WatchSpec, menus: seq<Rect>, e: Event)
      modifies this`fired
      ensures fired == old(fired) + (if Fires(w.codes, menus, e) then 1 else 0)
    {
      var codes := w.codes;
      match e {
        case MouseEvent(p, button, mods) =>
          if |menus| > 1 {
            return;
          } else if |menus| == 1 {
            if Inside(p, menus[0]) {
              return;
            }
          }
          if |codes| > 0 {
            var found := ContainsKey(codes, MouseCombo(button, mods));
            if !found {
              return;
            }
          }
          fired := fired + 1;
        case KeyboardEvent(keyCode, charCode, which, mods) =>
          var code := KeyboardCode(keyCode, charCode, which);
          var found := ContainsKey(codes, KeyboardCombo(code, mods));
          if found {
            fired := fired + 1;
          }
        case OtherEvent =>
          if |codes| == 0 {
            fired := fired + 1;
          }
      }
    }
  }
}
