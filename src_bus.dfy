/**
 * The TypeScript revision of the dispatcher (src/index.ts): a `ShortcutBus`
 * whose options carry the callback and default to suppressing the event,
 * which stores bare wrapper closures, applies at most two suppression
 * effects and forgets every held key after a firing key-down; and the
 * single-combination `Shortcut`, which tracks every key.
 */
module SrcShortcuts {
  import opened Keys
  import opened Registry

  /** Options as the caller passes them: the callback, and `None` where a flag is absent. */
  datatype ShortcutOptions = ShortcutOptions(
    callback: Callback,
    stopProppagation: Option<bool>,
    preventDefault: Option<bool>)

  /** Options after spreading them over the defaults. */
  datatype Resolved = Resolved(callback: Callback, preventDefault: bool, stopProppagation: bool)

  /** Both suppressions are on unless the caller turns them off. */
  function Resolve(o: ShortcutOptions): (r: Resolved)
    ensures r.callback == o.callback
    ensures o.preventDefault.None? ==> r.preventDefault
    ensures o.stopProppagation.None? ==> r.stopProppagation
    ensures o.preventDefault.Some? ==> r.preventDefault == o.preventDefault.value
    ensures o.stopProppagation.Some? ==> r.stopProppagation == o.stopProppagation.value
  {
    Resolved(
      o.callback,
      match o.preventDefault case Some(b) => b case None => true,
      match o.stopProppagation case Some(b) => b case None => true)
  }

  /** One registry entry: the wrapper closure, which captures the options and the combination. */
  datatype Wrapper = Wrapper(options: Resolved, characters: seq<Key>)

  /**
   * The text of a wrapper closure. Every wrapper is the same arrow function,
   * so every wrapper has this one text, whatever callback it guards.
   */
  const WrapperText: string := "(event) => { return this.checkActiveShortcut(event, options, characters) }"

  /** The filter `off` applies as written: keep a wrapper unless the wrapper's text is `text`. */
  function KeepAsWritten(text: string): Wrapper -> bool {
    (w: Wrapper) => WrapperText != text
  }

  /** The filter `off` evidently means: keep a wrapper unless the callback it guards has `text`. */
  function KeepOtherCallback(text: string): Wrapper -> bool {
    (w: Wrapper) => w.options.callback.text != text
  }

  /**
   * The suppression effects a firing wrapper applies, each only when enabled,
   * prevent-default before stop-propagation; there is no
   * stop-immediate-propagation.
   */
  function Suppressions(o: Resolved): (r: seq<Effect>)
    ensures PreventDefault in r <==> o.preventDefault
    ensures StopPropagation in r <==> o.stopProppagation
    ensures StopImmediatePropagation !in r
    ensures forall i, j :: 0 <= i < j < |r| ==> Rank(r[i]) < Rank(r[j])
    ensures forall i :: 0 <= i < |r| ==> !r[i].Invoke?
  {
    (if o.preventDefault then [PreventDefault] else [])
    + (if o.stopProppagation then [StopPropagation] else [])
  }

  /** What a firing records: the suppressions, then the callback. */
  function Fire(o: Resolved): seq<Effect> {
    Suppressions(o) + [Invoke(o.callback)]
  }

  lemma FireInvokesCallback(o: Resolved)
    ensures Invoked(Fire(o)) == [o.callback]
  {
    InvokedNone(Suppressions(o));
    InvokedAppend(Suppressions(o), [Invoke(o.callback)]);
    assert Invoked([Invoke(o.callback)]) == [o.callback];
  }

  /** What running one wrapper against the held keys records. */
  function Trace(active: seq<Key>, w: Wrapper): seq<Effect> {
    if Matches(active, w.characters) then Fire(w.options) else []
  }

  /** The log of running every wrapper of a bucket in order against the same held keys. */
  function DispatchLog(active: seq<Key>, ws: seq<Wrapper>): (r: seq<Effect>)
    ensures r == [] <==> !AnyFires(active, ws)
  {
    if ws == [] then []
    else
      DispatchLog(active, ws[..|ws| - 1]) + Trace(active, ws[|ws| - 1])
  }

  /** The `executed` flag of a run over the bucket: set by the first wrapper that matches and never cleared. */
  predicate AnyFires(active: seq<Key>, ws: seq<Wrapper>)
    ensures AnyFires(active, ws) <==> exists x :: x in ws && Matches(active, x.characters)
  {
    if ws == [] then false
    else
      assert ws == ws[..|ws| - 1] + [ws[|ws| - 1]];
      AnyFires(active, ws[..|ws| - 1]) || Matches(active, ws[|ws| - 1].characters)
  }

  /** The callbacks of the matching wrappers, in bucket order. */
  function MatchingCallbacks(active: seq<Key>, ws: seq<Wrapper>): seq<Callback> {
    if ws == [] then []
    else MatchingCallbacks(active, ws[..|ws| - 1])
         + (if Matches(active, ws[|ws| - 1].characters) then [ws[|ws| - 1].options.callback] else [])
  }

  /** Running the first i+1 wrappers of a bucket runs the first i, then wrapper i. */
  lemma DispatchStep(active: seq<Key>, ws: seq<Wrapper>, i: nat)
    requires i < |ws|
    ensures DispatchLog(active, ws[..i + 1]) == DispatchLog(active, ws[..i]) + Trace(active, ws[i])
    ensures AnyFires(active, ws[..i + 1]) <==> AnyFires(active, ws[..i]) || Matches(active, ws[i].characters)
  {
    var pre := ws[..i + 1];
    assert pre[..i] == ws[..i];
  }

  /**
   * Dispatching a bucket invokes exactly the callbacks of its matching
   * wrappers, in bucket order, and the flag is set exactly when one was invoked.
   */
  lemma {:induction false} DispatchInvokesMatching(active: seq<Key>, ws: seq<Wrapper>)
    ensures Invoked(DispatchLog(active, ws)) == MatchingCallbacks(active, ws)
    ensures AnyFires(active, ws) <==> MatchingCallbacks(active, ws) != []
  {
    if ws != [] {
      var init := ws[..|ws| - 1];
      var last := ws[|ws| - 1];
      DispatchInvokesMatching(active, init);
      InvokedAppend(DispatchLog(active, init), Trace(active, last));
      if Matches(active, last.characters) {
        FireInvokesCallback(last.options);
      }
    }
  }

  /**
   * `ShortcutBus._onKeyDown` as a function of the registry, the held keys and
   * the raw key name: no bucket, no change; otherwise the key is held, every
   * wrapper runs, and if one fired no key is held any more.
   */
  function KeyDown(reg: seq<KeyListener<Wrapper>>, active: seq<Key>, rawKey: string): (s: Step)
    ensures Find(reg, Normalize(rawKey)).None? ==> s == Step(active, [])
    ensures NoDup(active) ==> NoDup(s.activeKeys)
  {
    var key := Normalize(rawKey);
    match Find(reg, key)
    case None => Step(active, [])
    case Some(i) =>
      var held := Press(active, key);
      var ws := reg[i].callbacks;
      Step(if AnyFires(held, ws) then [] else held, DispatchLog(held, ws))
  }

  /**
   * A key-down invokes exactly the callbacks of the wrappers in the pressed
   * key's bucket that match the held keys with the key added, in bucket
   * order; if it invoked one, no key is held afterwards, and otherwise the
   * key is held if it has a bucket.
   */
  lemma KeyDownClearsOnFire(reg: seq<KeyListener<Wrapper>>, active: seq<Key>, rawKey: string)
    ensures var k := Normalize(rawKey);
      Invoked(KeyDown(reg, active, rawKey).log) == MatchingCallbacks(Press(active, k), Lookup(reg, k))
    ensures var s := KeyDown(reg, active, rawKey);
      Invoked(s.log) != [] ==> s.activeKeys == []
    ensures var s := KeyDown(reg, active, rawKey);
      Invoked(s.log) == [] && Find(reg, Normalize(rawKey)).Some? ==>
        s.activeKeys == Press(active, Normalize(rawKey))
  {
    DispatchInvokesMatching(Press(active, Normalize(rawKey)), Lookup(reg, Normalize(rawKey)));
  }

  /**
   * Forgetting every held key stops auto-repeat from refiring a combination
   * of two or more keys: when every wrapper in the bucket guards such a
   * combination, the key-down that repeats a firing one invokes nothing.
   */
  lemma HeldKeyDoesNotRefire(reg: seq<KeyListener<Wrapper>>, active: seq<Key>, rawKey: string)
    requires Invoked(KeyDown(reg, active, rawKey).log) != []
    requires forall w :: w in Lookup(reg, Normalize(rawKey)) ==> |w.characters| >= 2
    ensures Invoked(KeyDown(reg, KeyDown(reg, active, rawKey).activeKeys, rawKey).log) == []
  {
    var k := Normalize(rawKey);
    var es := Lookup(reg, k);
    KeyDownClearsOnFire(reg, active, rawKey);
    KeyDownClearsOnFire(reg, [], rawKey);
    assert !AnyFires([k], es) by {
      forall i | 0 <= i < |es| ensures !Matches([k], es[i].characters) {
        assert es[i] in es;
      }
    }
    DispatchInvokesMatching([k], es);
  }

  /** With no key held and "a"'s bucket holding one "a" wrapper, a key-down of "a" fires it and clears the held keys. */
  lemma OneKeyFires(reg: seq<KeyListener<Wrapper>>, w: Wrapper)
    requires w.characters == ["a"]
    requires Find(reg, "a").Some? && Lookup(reg, "a") == [w]
    ensures KeyDown(reg, [], "a") == Step([], Fire(w.options))
  {
    assert Normalize("a") == "a";
    assert Press([], "a") == ["a"];
    assert Matches(["a"], w.characters);
    assert [w][..0] == [];
    assert DispatchLog(["a"], [w]) == Fire(w.options);
    assert AnyFires(["a"], [w]);
  }

  /** Registering a wrapper for "a" on an empty registry gives "a" a bucket holding just it. */
  lemma OneKeyBucket(w: Wrapper)
    ensures Find(Register([], ["a"], w), "a").Some?
    ensures Lookup(Register([], ["a"], w), "a") == [w]
  {
    var characters := ["a"];
    assert characters[..0] == [];
    assert Count(characters, "a") == 1;
    assert Repeat(w, 1) == [w];
    RegisterLookup([], characters, w, "a");
  }

  /**
   * Clearing the held keys does not stop a one-key combination from
   * refiring: after registering a callback for "a", a key-down of "a" and a
   * repeated key-down of "a" both invoke it.
   */
  lemma OneKeyCombinationRefires(options: ShortcutOptions)
    ensures var w := Wrapper(Resolve(options), ["a"]);
      var reg := Register([], ["a"], w);
      var first := KeyDown(reg, [], "a");
      Invoked(first.log) == [options.callback] && first.activeKeys == [] &&
      Invoked(KeyDown(reg, first.activeKeys, "a").log) == [options.callback]
  {
    var w := Wrapper(Resolve(options), ["a"]);
    OneKeyBucket(w);
    OneKeyFires(Register([], ["a"], w), w);
    FireInvokesCallback(w.options);
  }

  /** `off` as written never removes anything for a callback whose text is not the wrapper text. */
  lemma {:induction false} OffAsWrittenKeepsEverything(reg: seq<KeyListener<Wrapper>>, characters: seq<Key>, callback: Callback)
    requires callback.text != WrapperText
    ensures Unregister(reg, characters, KeepAsWritten(callback.text)) == reg
  {
    if characters != [] {
      var init := characters[..|characters| - 1];
      OffAsWrittenKeepsEverything(reg, init, callback);
      var c := characters[|characters| - 1];
      match Find(reg, c)
      case None =>
      case Some(i) =>
        FilterKeepsAll(reg[i].callbacks, KeepAsWritten(callback.text));
        assert reg[i := KeyListener(c, reg[i].callbacks)] == reg;
    }
  }

  /**
   * The counterexample: register a callback for "a", call `off` for it, press
   * "a": the callback still runs.
   */
  lemma OffAsWrittenStillFires(options: ShortcutOptions)
    requires options.callback.text != WrapperText
    ensures var w := Wrapper(Resolve(options), ["a"]);
      var reg := Unregister(Register([], ["a"], w), ["a"], KeepAsWritten(options.callback.text));
      Invoked(KeyDown(reg, [], "a").log) == [options.callback]
  {
    var w := Wrapper(Resolve(options), ["a"]);
    var registered := Register([], ["a"], w);
    OffAsWrittenKeepsEverything(registered, ["a"], options.callback);
    OneKeyBucket(w);
    OneKeyFires(registered, w);
    FireInvokesCallback(w.options);
  }

  /**
   * With the corrected `off`, the contents of every bucket end as removing
   * alone would have left them. Buckets that `on` created remain; see
   * OffByCallbackLeavesEmptyBuckets.
   */
  lemma OffByCallbackUndoesOn(reg: seq<KeyListener<Wrapper>>, options: ShortcutOptions, characters: seq<Key>, k: Key)
    ensures var w := Wrapper(Resolve(options), characters);
      var text := options.callback.text;
      Lookup(Unregister(Register(reg, characters, w), characters, KeepOtherCallback(text)), k) ==
      Lookup(Unregister(reg, characters, KeepOtherCallback(text)), k)
  {
    var w := Wrapper(Resolve(options), characters);
    UnregisterUndoesRegister(reg, characters, w, KeepOtherCallback(options.callback.text), k);
  }

  /** With the corrected `off`, the same sequence as in the counterexample runs nothing. */
  lemma OffByCallbackSilences(options: ShortcutOptions)
    ensures var w := Wrapper(Resolve(options), ["a"]);
      var reg := Unregister(Register([], ["a"], w), ["a"], KeepOtherCallback(options.callback.text));
      KeyDown(reg, [], "a").log == []
  {
    assert Normalize("a") == "a";
    OffByCallbackLeavesEmptyBuckets([], options, ["a"], [], "a");
  }

  /**
   * The buckets that `on` created survive the corrected `off`, empty, and
   * still make a key-down hold their key.
   */
  lemma OffByCallbackLeavesEmptyBuckets(reg: seq<KeyListener<Wrapper>>, options: ShortcutOptions, characters: seq<Key>,
                                        active: seq<Key>, rawKey: string)
    requires Find(reg, Normalize(rawKey)).None? && Normalize(rawKey) in characters
    ensures KeyDown(reg, active, rawKey) == Step(active, [])
    ensures var w := Wrapper(Resolve(options), characters);
      var after := Unregister(Register(reg, characters, w), characters, KeepOtherCallback(options.callback.text));
      Find(after, Normalize(rawKey)).Some? && Lookup(after, Normalize(rawKey)) == [] &&
      KeyDown(after, active, rawKey) == Step(Press(active, Normalize(rawKey)), [])
  {
    var w := Wrapper(Resolve(options), characters);
    UnregisterKeepsCreatedBuckets(reg, characters, w, KeepOtherCallback(options.callback.text), Normalize(rawKey));
  }

  class ShortcutBus {
    var keyListeners: seq<KeyListener<Wrapper>>
    var activeKeys: seq<Key>

    /** One bucket per key, and no key held twice. */
    ghost predicate Valid()
      reads this
    {
      UniqueKeys(keyListeners) && NoDup(activeKeys)
    }

    constructor ()
      ensures Valid() && keyListeners == [] && activeKeys == []
    {
      keyListeners := [];
      activeKeys := [];
    }

    /**
     * Registers `options.callback` for the combination `characters`; an
     * empty combination fails before anything changes.
     */
    method On(options: ShortcutOptions, characters: seq<Key>) returns (r: Outcome)
      requires Valid()
      modifies this
      ensures Valid()
      ensures activeKeys == old(activeKeys)
      ensures characters == [] ==> r == Fail(NoShortcutProvided) && keyListeners == old(keyListeners)
      ensures characters != [] ==>
        r == Pass &&
        keyListeners == Register(old(keyListeners), characters, Wrapper(Resolve(options), characters))
    {
      if |characters| == 0 {
        return Fail(NoShortcutProvided);
      }
      var resolved := Resolve(options);
      var wrapper := Wrapper(resolved, characters);
      for i := 0 to |characters|
        invariant keyListeners == Register(old(keyListeners), characters[..i], wrapper)
        invariant UniqueKeys(keyListeners)
        invariant activeKeys == old(activeKeys)
      {
        ghost var before := keyListeners;
        var key := characters[i];
        var index := Find(keyListeners, key);
        if index.None? {
          keyListeners := keyListeners + [KeyListener(key, [])];
          index := Some(|keyListeners| - 1);
        }
        var keyListener := keyListeners[index.value];
        keyListeners := keyListeners[index.value := keyListener.(callbacks := keyListener.callbacks + [wrapper])];
        assert keyListeners == AddEntry(before, key, wrapper);
        RegisterStep(old(keyListeners), characters, i, wrapper);
      }
      assert characters[..|characters|] == characters;
      r := Pass;
    }

    /**
     * `off` as written: from the bucket of every named key, removes the
     * wrappers whose own text is the callback's text.
     */
    method Off(callback: Callback, characters: seq<Key>)
      requires Valid()
      modifies this
      ensures Valid()
      ensures activeKeys == old(activeKeys)
      ensures keyListeners == Unregister(old(keyListeners), characters, KeepAsWritten(callback.text))
      ensures callback.text != WrapperText ==> keyListeners == old(keyListeners)
    {
      for i := 0 to |characters|
        invariant keyListeners == Unregister(old(keyListeners), characters[..i], KeepAsWritten(callback.text))
        invariant SameKeys(old(keyListeners), keyListeners)
        invariant activeKeys == old(activeKeys)
      {
        ghost var before := keyListeners;
        var index := Find(keyListeners, characters[i]);
        if index.Some? {
          var keyListener := keyListeners[index.value];
          keyListeners := keyListeners[index.value := keyListener.(callbacks := Filter(keyListener.callbacks, KeepAsWritten(callback.text)))];
        }
        assert keyListeners == Retain(before, characters[i], KeepAsWritten(callback.text));
        UnregisterStep(old(keyListeners), characters, i, KeepAsWritten(callback.text));
      }
      assert characters[..|characters|] == characters;
      if callback.text != WrapperText {
        OffAsWrittenKeepsEverything(old(keyListeners), characters, callback);
      }
    }

    /**
     * `off` corrected: from the bucket of every named key, removes the
     * wrappers that guard a callback with the given callback's text.
     */
    method OffByCallback(callback: Callback, characters: seq<Key>)
      requires Valid()
      modifies this
      ensures Valid()
      ensures activeKeys == old(activeKeys)
      ensures keyListeners == Unregister(old(keyListeners), characters, KeepOtherCallback(callback.text))
    {
      for i := 0 to |characters|
        invariant keyListeners == Unregister(old(keyListeners), characters[..i], KeepOtherCallback(callback.text))
        invariant SameKeys(old(keyListeners), keyListeners)
        invariant activeKeys == old(activeKeys)
      {
        ghost var before := keyListeners;
        var index := Find(keyListeners, characters[i]);
        if index.Some? {
          var keyListener := keyListeners[index.value];
          keyListeners := keyListeners[index.value := keyListener.(callbacks := Filter(keyListener.callbacks, KeepOtherCallback(callback.text)))];
        }
        assert keyListeners == Retain(before, characters[i], KeepOtherCallback(callback.text));
        UnregisterStep(old(keyListeners), characters, i, KeepOtherCallback(callback.text));
      }
      assert characters[..|characters|] == characters;
    }

    method OffAll()
      modifies this
      ensures Valid() && keyListeners == [] && activeKeys == []
    {
      keyListeners := [];
      activeKeys := [];
    }

    /**
     * Fires exactly when as many keys are held as the combination has
     * characters and every character is held; a firing records the enabled
     * suppressions and then the callback, a miss records nothing.
     */
    method CheckActiveShortcut(options: Resolved, characters: seq<Key>) returns (fired: bool, log: seq<Effect>)
      ensures fired <==> |activeKeys| == |characters| && forall c :: c in characters ==> c in activeKeys
      ensures fired ==> log == Suppressions(options) + [Invoke(options.callback)]
      ensures !fired ==> log == []
    {
      if |activeKeys| != |characters| {
        return false, [];
      }
      if exists c :: c in characters && c !in activeKeys {
        return false, [];
      }
      fired, log := true, Suppressions(options) + [Invoke(options.callback)];
    }

    /** Handles a key-down event for the raw key name, returning what it did. */
    method OnKeyDown(rawKey: string) returns (log: seq<Effect>)
      requires Valid()
      modifies this
      ensures Valid()
      ensures keyListeners == old(keyListeners)
      ensures Step(activeKeys, log) == KeyDown(old(keyListeners), old(activeKeys), rawKey)
    {
      var key := Normalize(rawKey);
      var index := Find(keyListeners, key);
      if index.None? {
        return [];
      }
      var listener := keyListeners[index.value];
      if key !in activeKeys {
        activeKeys := activeKeys + [key];
      }
      ghost var held := activeKeys;
      var executed := false;
      log := [];
      for i := 0 to |listener.callbacks|
        invariant keyListeners == old(keyListeners)
        invariant activeKeys == held == Press(old(activeKeys), key)
        invariant log == DispatchLog(held, listener.callbacks[..i])
        invariant executed <==> AnyFires(held, listener.callbacks[..i])
      {
        var c := listener.callbacks[i];
        var r, trace := CheckActiveShortcut(c.options, c.characters);
        log := log + trace;
        if r {
          executed := true;
        }
        assert Matches(held, c.characters) <==> r;
        DispatchStep(held, listener.callbacks, i);
      }
      assert listener.callbacks[..|listener.callbacks|] == listener.callbacks;
      if executed {
        activeKeys := [];
      }
    }

    /** Handles a key-up event: the normalised key is no longer held. */
    method OnKeyUp(rawKey: string)
      requires Valid()
      modifies this
      ensures Valid()
      ensures keyListeners == old(keyListeners)
      ensures activeKeys == Without(old(activeKeys), Normalize(rawKey))
    {
      if rawKey in ShortcutMap {
        activeKeys := Without(activeKeys, ShortcutMap[rawKey]);
      } else {
        activeKeys := Without(activeKeys, rawKey);
      }
    }
  }

  /**
   * `Shortcut._onKeyDown` as a function of the combination, the options, the
   * held keys and the raw key name: every key is held, whether or not it
   * belongs to the combination; on a match the suppressions and the callback
   * are recorded and no key is held any more.
   */
  function SingleKeyDown(characters: seq<Key>, options: Resolved, active: seq<Key>, rawKey: string): (s: Step)
    ensures NoDup(active) ==> NoDup(s.activeKeys)
  {
    var held := Press(active, Normalize(rawKey));
    if Matches(held, characters) then Step([], Fire(options)) else Step(held, [])
  }

  /**
   * For a combination without repeated keys, a `Shortcut` fires on a key-down
   * exactly when the held keys, with the pressed one, are the combination's
   * keys: press order does not matter and any other held key blocks it.
   */
  lemma SingleFiresIffSameKeys(characters: seq<Key>, options: Resolved, active: seq<Key>, rawKey: string)
    requires NoDup(active) && NoDup(characters)
    ensures var s := SingleKeyDown(characters, options, active, rawKey);
      Invoked(s.log) == (if Elements(Press(active, Normalize(rawKey))) == Elements(characters) then [options.callback] else [])
    ensures var s := SingleKeyDown(characters, options, active, rawKey);
      Invoked(s.log) == [] ==> s.activeKeys == Press(active, Normalize(rawKey))
    ensures var s := SingleKeyDown(characters, options, active, rawKey);
      Invoked(s.log) != [] ==> s.activeKeys == []
  {
    var held := Press(active, Normalize(rawKey));
    var s := SingleKeyDown(characters, options, active, rawKey);
    MatchesIsSetEquality(held, characters);
    if Matches(held, characters) {
      assert s.log == Fire(options);
      FireInvokesCallback(options);
    } else {
      assert s == Step(held, []);
    }
  }

  /**
   * While a key outside the combination is held, a `Shortcut` does not fire,
   * and the pressed key joins the held keys.
   */
  lemma UnrelatedKeyBlocks(characters: seq<Key>, options: Resolved, active: seq<Key>, rawKey: string, other: Key)
    requires NoDup(active) && NoDup(characters)
    requires other in active && other !in characters
    ensures SingleKeyDown(characters, options, active, rawKey) == Step(Press(active, Normalize(rawKey)), [])
  {
    var held := Press(active, Normalize(rawKey));
    MatchesIsSetEquality(held, characters);
    assert other in Elements(held) && other !in Elements(characters);
  }

  class Shortcut {
    var activeKeys: seq<Key>
    var options: Resolved
    var characters: seq<Key>

    ghost predicate Valid()
      reads this
    {
      NoDup(activeKeys)
    }

    /** Unlike `ShortcutBus.on`, an empty combination is accepted; it can never fire. */
    constructor (options: ShortcutOptions, characters: seq<Key>)
      ensures Valid() && activeKeys == []
      ensures this.options == Resolve(options) && this.characters == characters
    {
      activeKeys := [];
      this.options := Resolve(options);
      this.characters := characters;
    }

    /** Handles a key-down event for the raw key name, returning what it did. */
    method OnKeyDown(rawKey: string) returns (log: seq<Effect>)
      requires Valid()
      modifies this`activeKeys
      ensures Valid()
      ensures Step(activeKeys, log) == SingleKeyDown(characters, options, old(activeKeys), rawKey)
    {
      if rawKey in ShortcutMap {
        if ShortcutMap[rawKey] !in activeKeys {
          activeKeys := activeKeys + [ShortcutMap[rawKey]];
        }
      } else if rawKey !in activeKeys {
        activeKeys := activeKeys + [rawKey];
      }
      if |activeKeys| != |characters| {
        return [];
      }
      if exists k :: k in characters && k !in activeKeys {
        return [];
      }
      log := Suppressions(options) + [Invoke(options.callback)];
      activeKeys := [];
    }

    /** Handles a key-up event: the normalised key is no longer held. */
    method OnKeyUp(rawKey: string)
      requires Valid()
      modifies this`activeKeys
      ensures Valid()
      ensures activeKeys == Without(old(activeKeys), Normalize(rawKey))
    {
      if rawKey in ShortcutMap {
        activeKeys := Without(activeKeys, ShortcutMap[rawKey]);
      } else {
        activeKeys := Without(activeKeys, rawKey);
      }
    }
  }

  /** A `Shortcut` built with no characters never fires: the pressed key is always held. */
  lemma EmptyShortcutNeverFires(options: Resolved, active: seq<Key>, rawKey: string)
    ensures SingleKeyDown([], options, active, rawKey).log == []
  {
    assert Normalize(rawKey) in Press(active, Normalize(rawKey));
  }
}
