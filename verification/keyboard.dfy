/**
 The keyboard helper: a table of pressed keys kept up to date by key events
 and cleared on window blur, queried with key combinations written as
 `+`-separated names such as "ctrl+a" or "left+space".
 */
module Keyboard {
  import opened Strings

  datatype Option<T> = None | Some(value: T)

  /* Named keys and their key codes; every other name stands for the key of
     its first letter. */
  const Alias: map<string, int> :=
    map["left" := 37, "up" := 38, "right" := 39, "down" := 40,
        "space" := 32, "tab" := 9, "escape" := 27]

  /* The part of a DOM keyboard event the helper reads. */
  datatype KeyEvent = KeyEvent(
    kind: string,       // "keydown", "keyup", ...
    keyCode: int,
    shiftKey: bool,
    ctrlKey: bool,
    altKey: bool,
    metaKey: bool)

  /* Key code to "currently down"; a code never seen is absent. */
  type KeyCodes = map<int, bool>

  /* The state of a freshly constructed keyboard. */
  const Fresh: KeyCodes := map[]

  /* Records one key event: the event's key is down after a "keydown" and up
     after any other event; no other key changes. */
  function OnKeyChange(keys: KeyCodes, e: KeyEvent): (keys': KeyCodes)
    ensures keys'.Keys == keys.Keys + {e.keyCode}
    ensures keys'[e.keyCode] <==> e.kind == "keydown"
    ensures forall c :: c in keys && c != e.keyCode ==> keys'[c] == keys[c]
  {
    keys[e.keyCode := e.kind == "keydown"]
  }

  /* Window blur: every key already seen is released; none is added. */
  function OnBlur(keys: KeyCodes): (keys': KeyCodes)
    ensures keys'.Keys == keys.Keys
    ensures forall c :: c in keys' ==> !keys'[c]
  {
    map c | c in keys :: false
  }

  /* The key code a (non-modifier) name stands for: an alias first, else the
     upper-cased first character. The empty name has no first character, so
     it stands for no key at all. */
  function KeyCodeOf(token: string): (code: Option<int>)
    ensures code.None? <==> token !in Alias && |token| == 0
  {
    if token in Alias then Some(Alias[token])
    else if |token| == 0 then None
    else Some(UpperCode(token[0]))
  }

  /* A name is held when its key has been seen and is down. */
  predicate Held(keys: KeyCodes, token: string)
    ensures Held(keys, token) ==> token in Alias || |token| > 0
    ensures token in Alias ==> (Held(keys, token) <==> Alias[token] in keys && keys[Alias[token]])
    ensures token !in Alias && |token| > 0 ==>
      (Held(keys, token) <==> UpperCode(token[0]) in keys && keys[UpperCode(token[0])])
  {
    match KeyCodeOf(token)
    case Some(c) => c in keys && keys[c]
    case None => false
  }

  /* The four names `eventMatches` reads from the event's modifier flags. */
  predicate IsModifier(token: string)
  {
    token == "shift" || token == "ctrl" || token == "alt" || token == "meta"
  }

  /* A name matches an event through the modifier flags first, then through
     the event's key code. */
  predicate Matches(e: KeyEvent, token: string)
    ensures token == "shift" ==> (Matches(e, token) <==> e.shiftKey)
    ensures token == "ctrl" ==> (Matches(e, token) <==> e.ctrlKey)
    ensures token == "alt" ==> (Matches(e, token) <==> e.altKey)
    ensures token == "meta" ==> (Matches(e, token) <==> e.metaKey)
    ensures !IsModifier(token) ==> (Matches(e, token) <==> KeyCodeOf(token) == Some(e.keyCode))
  {
    if token == "shift" then e.shiftKey
    else if token == "ctrl" then e.ctrlKey
    else if token == "alt" then e.altKey
    else if token == "meta" then e.metaKey
    else
      match KeyCodeOf(token)
      case Some(c) => e.keyCode == c
      case None => false
  }

  /* Left-to-right check of every name, stopping at the first that fails. */
  function AllTokens(tokens: seq<string>, holds: string -> bool): (r: bool)
    ensures r <==> forall i :: 0 <= i < |tokens| ==> holds(tokens[i])
  {
    |tokens| == 0 || (holds(tokens[0]) && AllTokens(tokens[1..], holds))
  }

  /* `pressed(desc)`: every name of the combination is held. Modifier names
     get no special treatment here. */
  function Pressed(keys: KeyCodes, desc: string): (r: bool)
    ensures r <==> forall t :: t in Split(desc, '+') ==> Held(keys, t)
  {
    var tokens := Split(desc, '+');
    var r := AllTokens(tokens, t => Held(keys, t));
    assert r <==> forall i :: 0 <= i < |tokens| ==> Held(keys, tokens[i]);
    r
  }

  /* `eventMatches(e, desc)`: every name of the combination matches the one
     event; the keyboard's own table plays no part. */
  function EventMatches(e: KeyEvent, desc: string): (r: bool)
    ensures r <==> forall t :: t in Split(desc, '+') ==> Matches(e, t)
  {
    var tokens := Split(desc, '+');
    var r := AllTokens(tokens, t => Matches(e, t));
    assert r <==> forall i :: 0 <= i < |tokens| ==> Matches(e, tokens[i]);
    r
  }

  /* The alias table resolves exactly as listed. */
  lemma AliasCodes()
    ensures KeyCodeOf("left") == Some(37) && KeyCodeOf("up") == Some(38)
    ensures KeyCodeOf("right") == Some(39) && KeyCodeOf("down") == Some(40)
    ensures KeyCodeOf("space") == Some(32) && KeyCodeOf("tab") == Some(9)
    ensures KeyCodeOf("escape") == Some(27)
  {
  }

  /* A name without a separator is a combination of that one name. */
  lemma SingleName(keys: KeyCodes, e: KeyEvent, t: string)
    requires Free(t, '+')
    ensures Split(t, '+') == [t]
    ensures Pressed(keys, t) <==> Held(keys, t)
    ensures EventMatches(e, t) <==> Matches(e, t)
  {
    SplitFree(t, '+');
  }

  /* The empty combination is one empty name, which stands for no key: it is
     never pressed and never matches an event. */
  lemma EmptyNeverMatches(keys: KeyCodes, e: KeyEvent)
    ensures !Pressed(keys, "")
    ensures !EventMatches(e, "")
  {
    assert Split("", '+') == [""];
    assert "" in Split("", '+');
  }

  /* Only the first character of a non-alias name counts. */
  lemma FirstCharOnly(t: string)
    requires t !in Alias && |t| > 0
    ensures KeyCodeOf(t) == KeyCodeOf([t[0]])
    ensures KeyCodeOf(t) == Some(UpperCode(t[0]))
  {
    assert [t[0]] !in Alias by {
      assert forall a :: a in Alias ==> |a| > 1;
    }
  }

  /* A lower-case letter and its capital name the same key, for `pressed`
     and for `eventMatches` alike. */
  lemma CaseInsensitive(keys: KeyCodes, e: KeyEvent, c: char)
    requires 'a' <= c <= 'z'
    ensures var C := (c as int - 32) as char;
      && Pressed(keys, [c]) == Pressed(keys, [C])
      && EventMatches(e, [c]) == EventMatches(e, [C])
  {
    var C := (c as int - 32) as char;
    SingleName(keys, e, [c]);
    SingleName(keys, e, [C]);
    FirstCharOnly([c]);
    FirstCharOnly([C]);
    assert UpperCode(c) == UpperCode(C);
    assert !IsModifier([c]) && !IsModifier([C]);
  }

  /* `pressed` reads the modifier names as ordinary names: each stands for
     the key of its first letter (S, C, A or M). */
  lemma PressedTreatsModifierAsLetter(keys: KeyCodes, t: string)
    requires IsModifier(t)
    ensures KeyCodeOf(t) == Some(UpperCode(t[0]))
    ensures UpperCode(t[0]) in {83, 67, 65, 77}
    ensures Pressed(keys, t) <==> UpperCode(t[0]) in keys && keys[UpperCode(t[0])]
  {
    assert Free(t, '+');
    assert t !in Alias;
    SplitFree(t, '+');
  }

  /* `eventMatches` reads the modifier names from the event's flags alone,
     whatever key the event is for. */
  lemma EventModifierFlags(e: KeyEvent, t: string)
    requires IsModifier(t)
    ensures EventMatches(e, t) <==>
      if t == "shift" then e.shiftKey
      else if t == "ctrl" then e.ctrlKey
      else if t == "alt" then e.altKey
      else e.metaKey
  {
    assert Free(t, '+');
    SplitFree(t, '+');
  }

  /* Joining two combinations with `+` asks for both. */
  lemma Combination(keys: KeyCodes, e: KeyEvent, a: string, b: string)
    ensures Pressed(keys, a + "+" + b) <==> Pressed(keys, a) && Pressed(keys, b)
    ensures EventMatches(e, a + "+" + b) <==> EventMatches(e, a) && EventMatches(e, b)
  {
    SplitConcat(a, b, '+');
    assert a + "+" + b == a + ['+'] + b;
  }

  /* After a blur no combination is pressed. */
  lemma BlurReleasesAll(keys: KeyCodes, desc: string)
    ensures !Pressed(OnBlur(keys), desc)
  {
    var tokens := Split(desc, '+');
    assert tokens[0] in tokens;
  }

  /* What `pressed` answers after one key event: names of the event's key
     are held exactly when the event was a "keydown"; every other name is
     held exactly as before. */
  lemma PressedAfterKeyChange(keys: KeyCodes, e: KeyEvent, desc: string)
    ensures Pressed(OnKeyChange(keys, e), desc) <==>
      forall t :: t in Split(desc, '+') ==>
        if KeyCodeOf(t) == Some(e.keyCode) then e.kind == "keydown" else Held(keys, t)
  {
  }

  /* On a fresh keyboard that has seen one event, `pressed` and
     `eventMatches` agree on every combination without modifier names. */
  lemma PressedAgreesWithEvent(e: KeyEvent, desc: string)
    requires forall t :: t in Split(desc, '+') ==> !IsModifier(t)
    ensures Pressed(OnKeyChange(Fresh, e), desc) <==> e.kind == "keydown" && EventMatches(e, desc)
  {
    var tokens := Split(desc, '+');
    var keys := OnKeyChange(Fresh, e);
    assert tokens[0] in tokens;
    assert forall t :: t in tokens ==> (Held(keys, t) <==> e.kind == "keydown" && Matches(e, t));
  }
}
