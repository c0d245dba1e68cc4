/**
 * The compiled revision of the dispatcher (lib/index.js): a `ShortcutBus`
 * whose registry entries carry the callback's text as their id, whose match
 * applies up to three suppression effects, and which after a firing key-down
 * releases only the key just pressed; plus the `shortcut` helper that
 * returns an off-handle.
 */
module LibShortcuts {
  import opened Keys
  import opened Registry

  /** Options as the caller passes them to `on`: `None` where a field is absent. */
  datatype UserOptions = UserOptions(
    preventDefault: Option<bool>,
    stopProppagation: Option<bool>,
    stopImmediatePropagation: Option<bool>)

  /** Options after `Object.assign` over the defaults. */
  datatype Options = Options(preventDefault: bool, stopProppagation: bool, stopImmediatePropagation: bool)

  /** Every suppression is off unless the caller turns it on. */
  function Resolve(o: UserOptions): (r: Options)
    ensures o.preventDefault.None? ==> !r.preventDefault
    ensures o.stopProppagation.None? ==> !r.stopProppagation
    ensures o.stopImmediatePropagation.None? ==> !r.stopImmediatePropagation
    ensures o.preventDefault.Some? ==> r.preventDefault == o.preventDefault.value
    ensures o.stopProppagation.Some? ==> r.stopProppagation == o.stopProppagation.value
    ensures o.stopImmediatePropagation.Some? ==> r.stopImmediatePropagation == o.stopImmediatePropagation.value
  {
    Options(
      match o.preventDefault case Some(b) => b case None => false,
      match o.stopProppagation case Some(b) => b case None => false,
      match o.stopImmediatePropagation case Some(b) => b case None => false)
  }

  /**
   * One registry entry: the wrapper closure's captured callback, options and
   * combination, and `id`, the callback's text.
   */
  datatype Entry = Entry(id: string, callback: Callback, options: Options, characters: seq<Key>)

  /** The filter `off` applies: keep an entry unless its id is `text`. */
  function KeepOther(text: string): Entry -> bool {
    (e: Entry) => e.id != text
  }

  /**
   * The suppression effects a firing entry applies, each only when enabled,
   * always in the order prevent-default, stop-propagation,
   * stop-immediate-propagation.
   */
  function Suppressions(o: Options): (r: seq<Effect>)
    ensures PreventDefault in r <==> o.preventDefault
    ensures StopPropagation in r <==> o.stopProppagation
    ensures StopImmediatePropagation in r <==> o.stopImmediatePropagation
    ensures forall i, j :: 0 <= i < j < |r| ==> Rank(r[i]) < Rank(r[j])
    ensures forall i :: 0 <= i < |r| ==> !r[i].Invoke?
  {
    (if o.preventDefault then [PreventDefault] else [])
    + (if o.stopProppagation then [StopPropagation] else [])
    + (if o.stopImmediatePropagation then [StopImmediatePropagation] else [])
  }

  /** What running one entry's wrapper against the held keys records. */
  function Trace(active: seq<Key>, e: Entry): seq<Effect> {
    if Matches(active, e.characters) then Suppressions(e.options) + [Invoke(e.callback)] else []
  }

  /** The log of running every entry of a bucket in order against the same held keys. */
  function DispatchLog(active: seq<Key>, es: seq<Entry>): (r: seq<Effect>)
    ensures r == [] <==> !AnyFires(active, es)
  {
    if es == [] then []
    else
      DispatchLog(active, es[..|es| - 1]) + Trace(active, es[|es| - 1])
  }

  /** The `executed` flag of a run over the bucket: set by the first entry that matches and never cleared. */
  predicate AnyFires(active: seq<Key>, es: seq<Entry>)
    ensures AnyFires(active, es) <==> exists x :: x in es && Matches(active, x.characters)
  {
    if es == [] then false
    else
      assert es == es[..|es| - 1] + [es[|es| - 1]];
      AnyFires(active, es[..|es| - 1]) || Matches(active, es[|es| - 1].characters)
  }

  /** The callbacks of the matching entries, in bucket order. */
  function MatchingCallbacks(active: seq<Key>, es: seq<Entry>): seq<Callback> {
    if es == [] then []
    else MatchingCallbacks(active, es[..|es| - 1])
         + (if Matches(active, es[|es| - 1].characters) then [es[|es| - 1].callback] else [])
  }

  /** Running the first i+1 entries of a bucket runs the first i, then entry i. */
  lemma DispatchStep(active: seq<Key>, es: seq<Entry>, i: nat)
    requires i < |es|
    ensures DispatchLog(active, es[..i + 1]) == DispatchLog(active, es[..i]) + Trace(active, es[i])
    ensures AnyFires(active, es[..i + 1]) <==> AnyFires(active, es[..i]) || Matches(active, es[i].characters)
  {
    var pre := es[..i + 1];
    assert pre[..i] == es[..i];
  }

  /**
   * Dispatching a bucket invokes exactly the callbacks of its matching
   * entries, in bucket order, and the flag is set exactly when one was invoked.
   */
  lemma {:induction false} DispatchInvokesMatching(active: seq<Key>, es: seq<Entry>)
    ensures Invoked(DispatchLog(active, es)) == MatchingCallbacks(active, es)
    ensures AnyFires(active, es) <==> MatchingCallbacks(active, es) != []
  {
    if es != [] {
      var init := es[..|es| - 1];
      var last := es[|es| - 1];
      DispatchInvokesMatching(active, init);
      InvokedAppend(DispatchLog(active, init), Trace(active, last));
      if Matches(active, last.characters) {
        InvokedNone(Suppressions(last.options));
        InvokedAppend(Suppressions(last.options), [Invoke(last.callback)]);
        assert Invoked([Invoke(last.callback)]) == [last.callback];
      }
    }
  }

  /** Dispatching against held-key lists with the same keys and length gives the same log. */
  lemma {:induction false} DispatchIgnoresOrder(a: seq<Key>, b: seq<Key>, es: seq<Entry>)
    requires |a| == |b| && forall x :: x in a <==> x in b
    ensures DispatchLog(a, es) == DispatchLog(b, es)
    ensures AnyFires(a, es) == AnyFires(b, es)
  {
    if es != [] {
      DispatchIgnoresOrder(a, b, es[..|es| - 1]);
      MatchesIgnoresOrder(a, b, es[|es| - 1].characters);
    }
    forall i | 0 <= i < |es| ensures Matches(a, es[i].characters) == Matches(b, es[i].characters) {
      MatchesIgnoresOrder(a, b, es[i].characters);
    }
  }

  /**
   * `_onKeyDown` as a function of the registry, the held keys and the raw key
   * name: no bucket, no change; otherwise the key is held, every entry runs,
   * and if one fired the pressed key alone is released.
   */
  function KeyDown(reg: seq<KeyListener<Entry>>, active: seq<Key>, rawKey: string): (s: Step)
    ensures Find(reg, Normalize(rawKey)).None? ==> s == Step(active, [])
    ensures NoDup(active) ==> NoDup(s.activeKeys)
  {
    var key := Normalize(rawKey);
    match Find(reg, key)
    case None => Step(active, [])
    case Some(i) =>
      var held := Press(active, key);
      var es := reg[i].callbacks;
      Step(if AnyFires(held, es) then Without(held, key) else held, DispatchLog(held, es))
  }

  /**
   * A key-down invokes exactly the callbacks of the entries in the pressed
   * key's bucket that match the held keys with the key added, in bucket order.
   */
  lemma KeyDownFiresMatching(reg: seq<KeyListener<Entry>>, active: seq<Key>, rawKey: string)
    ensures Invoked(KeyDown(reg, active, rawKey).log) ==
            MatchingCallbacks(Press(active, Normalize(rawKey)), Lookup(reg, Normalize(rawKey)))
  {
    DispatchInvokesMatching(Press(active, Normalize(rawKey)), Lookup(reg, Normalize(rawKey)));
  }

  /**
   * After a key-down that invoked something, exactly the pressed key is
   * released and the other held keys keep their order; after one that
   * invoked nothing, the key is held if it has a bucket.
   */
  lemma KeyDownReleasesPressedKey(reg: seq<KeyListener<Entry>>, active: seq<Key>, rawKey: string)
    requires NoDup(active)
    ensures var s := KeyDown(reg, active, rawKey);
      Invoked(s.log) != [] ==> s.activeKeys == Without(active, Normalize(rawKey))
    ensures var s := KeyDown(reg, active, rawKey);
      Invoked(s.log) == [] && Find(reg, Normalize(rawKey)).Some? ==>
        s.activeKeys == Press(active, Normalize(rawKey))
  {
    var key := Normalize(rawKey);
    var held := Press(active, key);
    KeyDownFiresMatching(reg, active, rawKey);
    DispatchInvokesMatching(held, Lookup(reg, key));
    if key !in active {
      WithoutPress(active, key);
    }
  }

  /**
   * Releasing only the pressed key does not stop a held key from firing
   * again: the next key-down of the same key (the host's auto-repeat) re-adds
   * it and produces the same log.
   */
  lemma HeldKeyRefires(reg: seq<KeyListener<Entry>>, active: seq<Key>, rawKey: string)
    requires NoDup(active)
    requires Invoked(KeyDown(reg, active, rawKey).log) != []
    ensures KeyDown(reg, KeyDown(reg, active, rawKey).activeKeys, rawKey).log == KeyDown(reg, active, rawKey).log
  {
    var key := Normalize(rawKey);
    var i := Find(reg, key).value;
    var es := reg[i].callbacks;
    var held := Press(active, key);
    var after := KeyDown(reg, active, rawKey).activeKeys;
    KeyDownReleasesPressedKey(reg, active, rawKey);
    assert after == Without(active, key);
    var again := Press(after, key);
    if key in active {
      WithoutOne(active, key);
    }
    assert |again| == |held|;
    DispatchIgnoresOrder(again, held, es);
  }

  /** Registering "a"+"b" on an empty registry gives each of the two keys a bucket holding just the entry. */
  lemma PairBuckets(e: Entry, k: Key)
    requires k == "a" || k == "b"
    ensures Find(Register([], ["a", "b"], e), k).Some?
    ensures Lookup(Register([], ["a", "b"], e), k) == [e]
  {
    var characters := ["a", "b"];
    assert characters[..1] == ["a"] && ["a"][..0] == [];
    assert Count(characters, k) == 1;
    assert Repeat(e, 1) == [e];
    RegisterLookup([], characters, e, k);
  }

  /** Pressing "a" alone, with "a"'s bucket holding one "a"+"b" entry, holds "a" and records nothing. */
  lemma FirstOfPair(reg: seq<KeyListener<Entry>>, e: Entry)
    requires e.characters == ["a", "b"]
    requires Find(reg, "a").Some? && Lookup(reg, "a") == [e]
    ensures KeyDown(reg, [], "a") == Step(["a"], [])
  {
    assert Normalize("a") == "a";
    assert Press([], "a") == ["a"];
    assert !Matches(["a"], e.characters);
    assert [e][..0] == [];
    assert DispatchLog(["a"], [e]) == [];
    assert !AnyFires(["a"], [e]);
  }

  /** Pressing "b" with "a" held, "b"'s bucket holding one "a"+"b" entry, invokes it once and keeps "a" held. */
  lemma SecondOfPair(reg: seq<KeyListener<Entry>>, e: Entry)
    requires e.characters == ["a", "b"]
    requires Find(reg, "b").Some? && Lookup(reg, "b") == [e]
    ensures Invoked(KeyDown(reg, ["a"], "b").log) == [e.callback]
    ensures KeyDown(reg, ["a"], "b").activeKeys == ["a"]
  {
    assert Normalize("b") == "b";
    assert Press(["a"], "b") == ["a", "b"];
    assert Matches(["a", "b"], e.characters);
    assert [e][..0] == [];
    assert MatchingCallbacks(["a", "b"], [e]) == [e.callback];
    KeyDownFiresMatching(reg, ["a"], "b");
    KeyDownReleasesPressedKey(reg, ["a"], "b");
    assert Without(["a"], "b") == ["a"];
  }

  /**
   * Registering "a"+"b" on an empty bus: pressing "a" alone invokes nothing
   * and holds "a"; pressing "b" next invokes the callback once and releases
   * "b" while "a" stays held.
   */
  lemma PressingBothKeysFiresOnce(callback: Callback, options: UserOptions)
    ensures var e := Entry(callback.text, callback, Resolve(options), ["a", "b"]);
      var reg := Register([], ["a", "b"], e);
      var first := KeyDown(reg, [], "a");
      var second := KeyDown(reg, first.activeKeys, "b");
      first == Step(["a"], []) && Invoked(second.log) == [callback] && second.activeKeys == ["a"]
  {
    var e := Entry(callback.text, callback, Resolve(options), ["a", "b"]);
    var reg := Register([], ["a", "b"], e);
    PairBuckets(e, "a");
    PairBuckets(e, "b");
    FirstOfPair(reg, e);
    SecondOfPair(reg, e);
  }

  /** `off` leaves no entry with the callback's text in a named bucket, and keeps every other entry. */
  lemma OffRemovesEveryEntryOfText(reg: seq<KeyListener<Entry>>, characters: seq<Key>, text: string, k: Key)
    ensures k in characters ==> forall e :: e in Lookup(Unregister(reg, characters, KeepOther(text)), k) ==> e.id != text
    ensures k in characters ==> Lookup(Unregister(reg, characters, KeepOther(text)), k) == Filter(Lookup(reg, k), KeepOther(text))
    ensures k !in characters ==> Lookup(Unregister(reg, characters, KeepOther(text)), k) == Lookup(reg, k)
  {
    UnregisterLookup(reg, characters, KeepOther(text), k);
  }

  /**
   * Calling the handle of `shortcut` after it registered leaves the contents
   * of every bucket as calling `off` alone would have: the registration is
   * gone, together with every other entry of the same callback text. Buckets
   * that `shortcut` created remain; see HandleLeavesEmptyBuckets.
   */
  lemma HandleUndoesShortcut(reg: seq<KeyListener<Entry>>, characters: seq<Key>, callback: Callback, options: UserOptions, k: Key)
    ensures var e := Entry(callback.text, callback, Resolve(options), characters);
      Lookup(Unregister(Register(reg, characters, e), characters, KeepOther(callback.text)), k) ==
      Lookup(Unregister(reg, characters, KeepOther(callback.text)), k)
  {
    var e := Entry(callback.text, callback, Resolve(options), characters);
    UnregisterUndoesRegister(reg, characters, e, KeepOther(callback.text), k);
  }

  /**
   * The buckets that `shortcut` created survive its handle, empty, and still
   * make a key-down hold their key: with no bucket before, a key-down of that
   * key changes nothing; after `shortcut` and the handle, it holds the key.
   */
  lemma HandleLeavesEmptyBuckets(reg: seq<KeyListener<Entry>>, characters: seq<Key>, callback: Callback, options: UserOptions,
                                 active: seq<Key>, rawKey: string)
    requires Find(reg, Normalize(rawKey)).None? && Normalize(rawKey) in characters
    ensures KeyDown(reg, active, rawKey) == Step(active, [])
    ensures var e := Entry(callback.text, callback, Resolve(options), characters);
      var after := Unregister(Register(reg, characters, e), characters, KeepOther(callback.text));
      Find(after, Normalize(rawKey)).Some? && Lookup(after, Normalize(rawKey)) == [] &&
      KeyDown(after, active, rawKey) == Step(Press(active, Normalize(rawKey)), [])
  {
    var e := Entry(callback.text, callback, Resolve(options), characters);
    UnregisterKeepsCreatedBuckets(reg, characters, e, KeepOther(callback.text), Normalize(rawKey));
  }

  class ShortcutBus {
    var keyListeners: seq<KeyListener<Entry>>
    var activeKeys: seq<Key>

    /** One bucket per key, and no key held twice. */
    ghost predicate Valid()
      reads this
    {
      UniqueKeys(keyListeners) && NoDup(activeKeys)
    }

    constructor ()
      ensures Valid() && keyListeners == [] && activeKeys == []
    {
      keyListeners := [];
      activeKeys := [];
    }

    /**
     * Registers `callback` for the combination `characters`; an empty
     * combination fails before anything changes.
     */
    method On(characters: seq<Key>, callback: Callback, options: UserOptions) returns (r: Outcome)
      requires Valid()
      modifies this
      ensures Valid()
      ensures activeKeys == old(activeKeys)
      ensures characters == [] ==> r == Fail(NoShortcutProvided) && keyListeners == old(keyListeners)
      ensures characters != [] ==>
        r == Pass &&
        keyListeners == Register(old(keyListeners), characters, Entry(callback.text, callback, Resolve(options), characters))
    {
      if |characters| == 0 {
        return Fail(NoShortcutProvided);
      }
      var resolved := Resolve(options);
      var entry := Entry(callback.text, callback, resolved, characters);
      for i := 0 to |characters|
        invariant keyListeners == Register(old(keyListeners), characters[..i], entry)
        invariant UniqueKeys(keyListeners)
        invariant activeKeys == old(activeKeys)
      {
        ghost var before := keyListeners;
        var key := characters[i];
        var index := Find(keyListeners, key);
        if index.None? {
          keyListeners := keyListeners + [KeyListener(key, [])];
          index := Some(|keyListeners| - 1);
        }
        var keyListener := keyListeners[index.value];
        keyListeners := keyListeners[index.value := keyListener.(callbacks := keyListener.callbacks + [entry])];
        assert keyListeners == AddEntry(before, key, entry);
        RegisterStep(old(keyListeners), characters, i, entry);
      }
      assert characters[..|characters|] == characters;
      r := Pass;
    }

    /** Removes, from the bucket of every named key, the entries whose id is the callback's text. */
    method Off(characters: seq<Key>, callback: Callback)
      requires Valid()
      modifies this
      ensures Valid()
      ensures activeKeys == old(activeKeys)
      ensures keyListeners == Unregister(old(keyListeners), characters, KeepOther(callback.text))
    {
      for i := 0 to |characters|
        invariant keyListeners == Unregister(old(keyListeners), characters[..i], KeepOther(callback.text))
        invariant SameKeys(old(keyListeners), keyListeners)
        invariant activeKeys == old(activeKeys)
      {
        ghost var before := keyListeners;
        var index := Find(keyListeners, characters[i]);
        if index.Some? {
          var keyListener := keyListeners[index.value];
          keyListeners := keyListeners[index.value := keyListener.(callbacks := Filter(keyListener.callbacks, KeepOther(callback.text)))];
        }
        assert keyListeners == Retain(before, characters[i], KeepOther(callback.text));
        UnregisterStep(old(keyListeners), characters, i, KeepOther(callback.text));
      }
      assert characters[..|characters|] == characters;
    }

    method OffAll()
      modifies this
      ensures Valid() && keyListeners == [] && activeKeys == []
    {
      keyListeners := [];
      activeKeys := [];
    }

    /**
     * Fires exactly when as many keys are held as the combination has
     * characters and every character is held; a firing records the enabled
     * suppressions and then the callback, a miss records nothing.
     */
    method CheckActiveShortcut(callback: Callback, options: Options, characters: seq<Key>)
      returns (fired: bool, log: seq<Effect>)
      ensures fired <==> |activeKeys| == |characters| && forall c :: c in characters ==> c in activeKeys
      ensures fired ==> log == Suppressions(options) + [Invoke(callback)]
      ensures !fired ==> log == []
    {
      if |activeKeys| != |characters| {
        return false, [];
      }
      if exists c :: c in characters && c !in activeKeys {
        return false, [];
      }
      fired, log := true, Suppressions(options) + [Invoke(callback)];
    }

    /** Handles a key-down event for the raw key name, returning what it did. */
    method OnKeyDown(rawKey: string) returns (log: seq<Effect>)
      requires Valid()
      modifies this
      ensures Valid()
      ensures keyListeners == old(keyListeners)
      ensures Step(activeKeys, log) == KeyDown(old(keyListeners), old(activeKeys), rawKey)
    {
      var key := Normalize(rawKey);
      var index := Find(keyListeners, key);
      if index.None? {
        return [];
      }
      var listener := keyListeners[index.value];
      if key !in activeKeys {
        activeKeys := activeKeys + [key];
      }
      ghost var held := activeKeys;
      var executed := false;
      log := [];
      for i := 0 to |listener.callbacks|
        invariant keyListeners == old(keyListeners)
        invariant activeKeys == held == Press(old(activeKeys), key)
        invariant log == DispatchLog(held, listener.callbacks[..i])
        invariant executed <==> AnyFires(held, listener.callbacks[..i])
      {
        var c := listener.callbacks[i];
        var r, trace := CheckActiveShortcut(c.callback, c.options, c.characters);
        log := log + trace;
        if r {
          executed := true;
        }
        assert Matches(held, c.characters) <==> r;
        DispatchStep(held, listener.callbacks, i);
      }
      assert listener.callbacks[..|listener.callbacks|] == listener.callbacks;
      if executed {
        activeKeys := Without(activeKeys, key);
      }
    }

    /** Handles a key-up event: the normalised key is no longer held. */
    method OnKeyUp(rawKey: string)
      requires Valid()
      modifies this
      ensures Valid()
      ensures keyListeners == old(keyListeners)
      ensures activeKeys == Without(old(activeKeys), Normalize(rawKey))
    {
      if rawKey in ShortcutMap {
        activeKeys := Without(activeKeys, ShortcutMap[rawKey]);
      } else {
        activeKeys := Without(activeKeys, rawKey);
      }
    }
  }

  /** The handle `shortcut` returns: calling it runs `off` with the same combination and callback. */
  datatype OffHandle = OffHandle(characters: seq<Key>, callback: Callback)

  /** `shortcut`: registers on the given bus and hands back the matching off-handle. */
  method Shortcut(bus: ShortcutBus, characters: seq<Key>, callback: Callback, options: UserOptions)
    returns (r: Result<OffHandle>)
    requires bus.Valid()
    modifies bus
    ensures bus.Valid()
    ensures bus.activeKeys == old(bus.activeKeys)
    ensures characters == [] ==> r == Failure(NoShortcutProvided) && bus.keyListeners == old(bus.keyListeners)
    ensures characters != [] ==>
      r == Success(OffHandle(characters, callback)) &&
      bus.keyListeners == Register(old(bus.keyListeners), characters, Entry(callback.text, callback, Resolve(options), characters))
  {
    var outcome := bus.On(characters, callback, options);
    if outcome.Fail? {
      return Failure(outcome.error);
    }
    r := Success(OffHandle(characters, callback));
  }

  /** Calling an off-handle. */
  method Release(bus: ShortcutBus, handle: OffHandle)
    requires bus.Valid()
    modifies bus
    ensures bus.Valid()
    ensures bus.activeKeys == old(bus.activeKeys)
    ensures bus.keyListeners == Unregister(old(bus.keyListeners), handle.characters, KeepOther(handle.callback.text))
  {
    bus.Off(handle.characters, handle.callback);
  }
}
