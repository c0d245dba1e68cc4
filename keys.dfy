/**
 * Key identities, callbacks and event effects shared by both revisions of the
 * shortcut dispatcher, together with the pure tests both revisions run on the
 * list of held keys.
 */
module Keys {

  /** A normalised key identity: a letter, a modifier token or any other key name. */
  type Key = string

  datatype Option<T> = None | Some(value: T)

  /** The only error the dispatcher raises: registering an empty combination. */
  datatype Error = NoShortcutProvided

  datatype Outcome = Pass | Fail(error: Error)

  datatype Result<T> = Success(value: T) | Failure(error: Error)

  /**
   * A user callback. `ref` stands for the function value itself; `text` is what
   * the host's Function.prototype.toString gives for it. Two different
   * callbacks may share a text.
   */
  datatype Callback = Callback(ref: nat, text: string)

  /** What handling one key event does to the event and to user code, in order. */
  datatype Effect =
    | PreventDefault
    | StopPropagation
    | StopImmediatePropagation
    | Invoke(callback: Callback)

  /** The place of each kind of effect in the fixed order the dispatcher applies them. */
  function Rank(e: Effect): nat {
    match e
    case PreventDefault => 0
    case StopPropagation => 1
    case StopImmediatePropagation => 2
    case Invoke(_) => 3
  }

  /** Held keys and effect log after one key event. */
  datatype Step = Step(activeKeys: seq<Key>, log: seq<Effect>)

  /** The host's modifier names and the tokens they are renamed to. */
  const ShortcutMap: map<string, Key> :=
    map["Control" := "ctrl", "Alt" := "alt", "Shift" := "shift", "Tab" := "tab"]

  /** Renames a raw host key name; every other name passes through. */
  function Normalize(rawKey: string): (k: Key)
    ensures k != rawKey <==> rawKey in {"Control", "Alt", "Shift", "Tab"}
    ensures k != rawKey ==> k in {"ctrl", "alt", "shift", "tab"}
    ensures rawKey == "Control" ==> k == "ctrl"
    ensures rawKey == "Alt" ==> k == "alt"
    ensures rawKey == "Shift" ==> k == "shift"
    ensures rawKey == "Tab" ==> k == "tab"
  {
    if rawKey in ShortcutMap then ShortcutMap[rawKey] else rawKey
  }

  /** Normalising is idempotent, renames exactly the four modifier names and keeps every other name. */
  lemma NormalizeCanonical(rawKey: string)
    ensures Normalize(Normalize(rawKey)) == Normalize(rawKey)
    ensures rawKey in ShortcutMap ==> Normalize(rawKey) in {"ctrl", "alt", "shift", "tab"}
    ensures rawKey !in ShortcutMap ==> Normalize(rawKey) == rawKey
    ensures Normalize(rawKey) != rawKey <==> rawKey in {"Control", "Alt", "Shift", "Tab"}
    ensures Normalize("Control") == "ctrl" && Normalize("Alt") == "alt"
    ensures Normalize("Shift") == "shift" && Normalize("Tab") == "tab"
  {
  }

  /** A key is in a non-empty list when it is in all but the last place, or in the last. */
  lemma InInitOrLast(s: seq<Key>, k: Key)
    requires s != []
    ensures k in s <==> k in s[..|s| - 1] || k == s[|s| - 1]
  {
    assert s == s[..|s| - 1] + [s[|s| - 1]];
  }

  /** `InInitOrLast` for every key at once. */
  lemma InInitOrLastAll(s: seq<Key>)
    requires s != []
    ensures forall k :: k in s <==> k in s[..|s| - 1] || k == s[|s| - 1]
  {
    assert s == s[..|s| - 1] + [s[|s| - 1]];
  }

  /** No key occurs twice. */
  predicate NoDup(s: seq<Key>) {
    forall i, j :: 0 <= i < j < |s| ==> s[i] != s[j]
  }

  /** The set of keys in a list. */
  function Elements(s: seq<Key>): set<Key> {
    set x | x in s
  }

  /**
   * `includes` then `push`: the held keys after `k` went down. A key already
   * held is not pushed again.
   */
  function Press(active: seq<Key>, k: Key): (r: seq<Key>)
    ensures k in r
    ensures forall x :: x in r <==> x in active || x == k
    ensures |r| == if k in active then |active| else |active| + 1
    ensures r[..|active|] == active
    ensures NoDup(active) ==> NoDup(r)
  {
    if k in active then active else active + [k]
  }

  /** `filter(x => x != k)`: the held keys after `k` was released. */
  function Without(s: seq<Key>, k: Key): (r: seq<Key>)
    ensures forall x :: x in r <==> x in s && x != k
    ensures |r| <= |s|
    ensures k !in s ==> r == s
    ensures NoDup(s) ==> NoDup(r)
  {
    if s == [] then []
    else
      var rest := Without(s[1..], k);
      assert NoDup(s) ==> NoDup(s[1..]) && s[0] !in s[1..];
      (if s[0] == k then [] else [s[0]]) + rest
  }

  /** Removing a key keeps the other keys in their order. */
  lemma {:induction false} WithoutKeepsOrder(a: seq<Key>, k: Key, b: seq<Key>)
    requires k !in a && k !in b
    ensures Without(a + [k] + b, k) == a + b
  {
    var s := a + [k] + b;
    if a == [] {
      assert s[0] == k && s[1..] == b;
      assert Without(s, k) == Without(b, k);
    } else {
      assert s[0] == a[0] != k;
      assert s[1..] == a[1..] + [k] + b;
      WithoutKeepsOrder(a[1..], k, b);
      assert Without(s, k) == [a[0]] + (a[1..] + b);
      assert a == [a[0]] + a[1..];
    }
  }

  /** Without repeats, removing a held key shortens the list by exactly one. */
  lemma WithoutOne(s: seq<Key>, k: Key)
    requires NoDup(s) && k in s
    ensures |Without(s, k)| == |s| - 1
  {
    var i :| 0 <= i < |s| && s[i] == k;
    assert s == s[..i] + [k] + s[i + 1..];
    WithoutKeepsOrder(s[..i], k, s[i + 1..]);
  }

  /** Removing a key that was just pressed undoes the press. */
  lemma WithoutPress(active: seq<Key>, k: Key)
    requires k !in active
    ensures Without(Press(active, k), k) == active
  {
    WithoutKeepsOrder(active, k, []);
    assert active + [k] + [] == active + [k];
  }

  /**
   * The match test of `checkActiveShortcut`: as many keys held as the
   * combination has characters, and every character held.
   */
  predicate Matches(active: seq<Key>, characters: seq<Key>)
    ensures Matches(active, characters) ==> Elements(characters) <= Elements(active)
    ensures characters == [] ==> (Matches(active, characters) <==> active == [])
  {
    |active| == |characters| && forall i :: 0 <= i < |characters| ==> characters[i] in active
  }

  /** A list without repeats has as many elements as its set. */
  lemma {:induction false} DistinctCard(s: seq<Key>)
    requires NoDup(s)
    ensures |Elements(s)| == |s|
  {
    if s != [] {
      var init := s[..|s| - 1];
      assert NoDup(init);
      DistinctCard(init);
      assert Elements(s) == Elements(init) + {s[|s| - 1]};
      assert s[|s| - 1] !in Elements(init);
    }
  }

  /** A subset with as many elements as its superset is the superset. */
  lemma SubsetSameCard(a: set<Key>, b: set<Key>)
    requires a <= b && |a| == |b|
    ensures a == b
  {
    assert b == a + (b - a);
    assert |b - a| == 0;
  }

  /**
   * For a combination without repeated characters, matching is set equality
   * with the held keys: press order does not matter, and one extra held key
   * blocks the match.
   */
  lemma MatchesIsSetEquality(active: seq<Key>, characters: seq<Key>)
    requires NoDup(active) && NoDup(characters)
    ensures Matches(active, characters) <==> Elements(active) == Elements(characters)
  {
    DistinctCard(active);
    DistinctCard(characters);
    if Matches(active, characters) {
      assert Elements(characters) <= Elements(active);
      SubsetSameCard(Elements(characters), Elements(active));
    }
    if Elements(active) == Elements(characters) {
      forall i | 0 <= i < |characters| ensures characters[i] in active {
        assert characters[i] in Elements(characters);
      }
    }
  }

  /** Matching reads only how many keys are held and which: their order is irrelevant. */
  lemma MatchesIgnoresOrder(a: seq<Key>, b: seq<Key>, characters: seq<Key>)
    requires |a| == |b| && forall x :: x in a <==> x in b
    ensures Matches(a, characters) == Matches(b, characters)
  {
  }

  /**
   * A combination that repeats a character matches a held set that also
   * contains an unrelated key: ["a", "a"] matches "a" and "b" held.
   */
  lemma RepeatedCharacterAdmitsExtraKey()
    ensures Matches(["a", "b"], ["a", "a"])
    ensures Elements(["a", "b"]) != Elements(["a", "a"])
  {
    assert "b" in Elements(["a", "b"]);
    assert "b" !in Elements(["a", "a"]);
  }

  /** The callbacks a dispatch log invokes, in order. */
  function Invoked(log: seq<Effect>): seq<Callback> {
    if log == [] then []
    else Invoked(log[..|log| - 1]) + (if log[|log| - 1].Invoke? then [log[|log| - 1].callback] else [])
  }

  /** A log with no invocation invokes nothing. */
  lemma {:induction false} InvokedNone(log: seq<Effect>)
    requires forall i :: 0 <= i < |log| ==> !log[i].Invoke?
    ensures Invoked(log) == []
  {
    if log != [] {
      InvokedNone(log[..|log| - 1]);
    }
  }

  lemma {:induction false} InvokedAppend(a: seq<Effect>, b: seq<Effect>)
    ensures Invoked(a + b) == Invoked(a) + Invoked(b)
  {
    if b != [] {
      var b' := b[..|b| - 1];
      assert (a + b)[..|a + b| - 1] == a + b';
      InvokedAppend(a, b');
    } else {
      assert a + b == a;
    }
  }
}
