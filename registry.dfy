/**
 * The listener registry both revisions keep in `keyListeners`: a list of
 * buckets, each a key and the entries registered under it. `on` fans one
 * entry out to the bucket of every character (creating missing buckets at the
 * end of the list), `off` filters the named buckets. The entry type is a
 * parameter because the two revisions store different wrappers.
 */
module Registry {
  import opened Keys

  datatype KeyListener<E> = KeyListener(key: Key, callbacks: seq<E>)

  /** At most one bucket per key. */
  predicate UniqueKeys<E>(reg: seq<KeyListener<E>>) {
    forall i, j :: 0 <= i < j < |reg| ==> reg[i].key != reg[j].key
  }

  /** Both registries hold buckets for the same keys at the same positions. */
  predicate SameKeys<E>(a: seq<KeyListener<E>>, b: seq<KeyListener<E>>) {
    |a| == |b| && forall i :: 0 <= i < |a| ==> a[i].key == b[i].key
  }

  /** `keyListeners.find(l => l.key === k)`, as the position of the first bucket for `k`. */
  function Find<E>(reg: seq<KeyListener<E>>, k: Key): (r: Option<nat>)
    ensures r.Some? ==> r.value < |reg| && reg[r.value].key == k
    ensures r.Some? ==> forall j :: 0 <= j < r.value ==> reg[j].key != k
    ensures r.None? <==> forall j :: 0 <= j < |reg| ==> reg[j].key != k
  {
    if reg == [] then None
    else if reg[0].key == k then Some(0)
    else match Find(reg[1..], k)
      case None => None
      case Some(i) => Some(i + 1)
  }

  /** The entries registered under `k`, in registration order; none when there is no bucket. */
  function Lookup<E>(reg: seq<KeyListener<E>>, k: Key): (r: seq<E>)
    ensures (forall i :: 0 <= i < |reg| ==> reg[i].key != k) ==> r == []
    ensures UniqueKeys(reg) ==> forall i :: 0 <= i < |reg| && reg[i].key == k ==> r == reg[i].callbacks
  {
    match Find(reg, k)
    case None => []
    case Some(i) => reg[i].callbacks
  }

  /** The first bucket for `k` is at `i`. */
  lemma FindAt<E>(reg: seq<KeyListener<E>>, k: Key, i: nat)
    requires i < |reg| && reg[i].key == k
    requires forall j :: 0 <= j < i ==> reg[j].key != k
    ensures Find(reg, k) == Some(i)
  {
    var f := Find(reg, k);
    assert f.Some?;
    assert !(f.value < i);
    assert !(i < f.value);
  }

  /** Registries whose buckets hold the same keys at the same places find every key at the same place. */
  lemma FindSameKeys<E>(a: seq<KeyListener<E>>, b: seq<KeyListener<E>>, k: Key)
    requires SameKeys(a, b)
    ensures Find(a, k) == Find(b, k)
  {
    match Find(a, k)
    case None =>
      assert forall j :: 0 <= j < |b| ==> b[j].key == a[j].key;
    case Some(i) =>
      FindAt(b, k, i);
  }

  /** Appending a bucket leaves every key found before where it was. */
  lemma FindAppend<E>(reg: seq<KeyListener<E>>, l: KeyListener<E>, k: Key)
    ensures Find(reg + [l], k) ==
      if Find(reg, k).Some? then Find(reg, k) else if l.key == k then Some(|reg|) else None
  {
    var r := reg + [l];
    match Find(reg, k)
    case Some(i) =>
      FindAt(r, k, i);
    case None =>
      if l.key == k {
        FindAt(r, k, |reg|);
      } else {
        assert forall j :: 0 <= j < |r| ==> r[j].key != k;
      }
  }

  /** Under unique keys, a bucket's entries are what looking up its key gives. */
  lemma LookupAt<E>(reg: seq<KeyListener<E>>, i: nat)
    requires UniqueKeys(reg) && i < |reg|
    ensures Find(reg, reg[i].key) == Some(i)
    ensures Lookup(reg, reg[i].key) == reg[i].callbacks
  {
  }

  /** Two registries with unique keys at the same places and the same lookups are equal. */
  lemma {:induction false} RegistryExtensionality<E>(a: seq<KeyListener<E>>, b: seq<KeyListener<E>>)
    requires SameKeys(a, b) && UniqueKeys(a)
    requires forall k :: Lookup(a, k) == Lookup(b, k)
    ensures a == b
  {
    forall i | 0 <= i < |a| ensures a[i] == b[i] {
      LookupAt(a, i);
      FindSameKeys(a, b, a[i].key);
    }
  }

  /**
   * One step of `on`'s loop: find the bucket of `k` or push a new empty one,
   * then append `e` to it.
   */
  function AddEntry<E>(reg: seq<KeyListener<E>>, k: Key, e: E): (r: seq<KeyListener<E>>)
    ensures Lookup(r, k) == Lookup(reg, k) + [e]
    ensures forall k' :: k' != k ==> Lookup(r, k') == Lookup(reg, k')
    ensures |reg| <= |r| && forall i :: 0 <= i < |reg| ==> r[i].key == reg[i].key
    ensures Find(r, k).Some?
    ensures forall k' :: Find(r, k').Some? <==> Find(reg, k').Some? || k' == k
    ensures |r| == |reg| + (if Find(reg, k).None? then 1 else 0)
    ensures UniqueKeys(reg) ==> UniqueKeys(r)
  {
    match Find(reg, k)
    case None =>
      var r := reg + [KeyListener(k, [e])];
      forall k' ensures Find(r, k') == if k' == k then Some(|reg|) else Find(reg, k') {
        FindAppend(reg, KeyListener(k, [e]), k');
      }
      r
    case Some(i) =>
      var r := reg[i := KeyListener(k, reg[i].callbacks + [e])];
      forall k' ensures Find(r, k') == Find(reg, k') {
        FindSameKeys(r, reg, k');
      }
      r
  }

  /** What one step of `on` does to the bucket of any key. */
  lemma AddEntryLookup<E>(reg: seq<KeyListener<E>>, c: Key, e: E, k: Key)
    ensures Lookup(AddEntry(reg, c, e), k) == Lookup(reg, k) + (if c == k then [e] else [])
  {
  }

  /** How often `k` occurs in `s`. */
  function Count(s: seq<Key>, k: Key): nat {
    if s == [] then 0
    else Count(s[..|s| - 1], k) + (if s[|s| - 1] == k then 1 else 0)
  }

  lemma {:induction false} CountPositive(s: seq<Key>, k: Key)
    ensures k in s <==> Count(s, k) > 0
  {
    if s != [] {
      CountPositive(s[..|s| - 1], k);
      assert s == s[..|s| - 1] + [s[|s| - 1]];
    }
  }

  /** `n` copies of `e`. */
  function Repeat<E>(e: E, n: nat): seq<E> {
    if n == 0 then [] else Repeat(e, n - 1) + [e]
  }

  lemma SnocRepeat<E>(prefix: seq<E>, e: E, n: nat, more: bool)
    ensures prefix + Repeat(e, n) + (if more then [e] else []) == prefix + Repeat(e, if more then n + 1 else n)
  {
    if more {
      assert Repeat(e, n + 1) == Repeat(e, n) + [e];
    }
  }

  /** The whole of `on` past its emptiness check: `e` added to the bucket of every character in turn. */
  function Register<E>(reg: seq<KeyListener<E>>, characters: seq<Key>, e: E): (r: seq<KeyListener<E>>)
    ensures |reg| <= |r| && forall i :: 0 <= i < |reg| ==> r[i].key == reg[i].key
    ensures forall k :: Find(r, k).Some? <==> Find(reg, k).Some? || k in characters
    ensures UniqueKeys(reg) ==> UniqueKeys(r)
  {
    if characters == [] then reg
    else
      InInitOrLastAll(characters);
      AddEntry(Register(reg, characters[..|characters| - 1], e), characters[|characters| - 1], e)
  }

  /** Registering for one more character adds the entry to one more bucket. */
  lemma RegisterStep<E>(reg: seq<KeyListener<E>>, characters: seq<Key>, i: nat, e: E)
    requires i < |characters|
    ensures Register(reg, characters[..i + 1], e) == AddEntry(Register(reg, characters[..i], e), characters[i], e)
  {
    assert characters[..i + 1][..i] == characters[..i];
  }

  /**
   * After registering `e` for `characters`, every bucket holds what it held
   * before followed by one copy of `e` per occurrence of its key among the
   * characters; so keys not among them are untouched and no existing entry moves.
   */
  lemma {:induction false} RegisterLookup<E>(reg: seq<KeyListener<E>>, characters: seq<Key>, e: E, k: Key)
    ensures Lookup(Register(reg, characters, e), k) == Lookup(reg, k) + Repeat(e, Count(characters, k))
  {
    if characters != [] {
      var init := characters[..|characters| - 1];
      var c := characters[|characters| - 1];
      var before := Register(reg, init, e);
      var n := Count(init, k);
      var m := if c == k then n + 1 else n;
      var tail := if c == k then [e] else [];
      RegisterLookup(reg, init, e, k);
      AddEntryLookup(before, c, e, k);
      SnocRepeat(Lookup(reg, k), e, n, c == k);
      assert Count(characters, k) == m;
      calc {
        Lookup(Register(reg, characters, e), k);
        Lookup(AddEntry(before, c, e), k);
        Lookup(before, k) + tail;
        Lookup(reg, k) + Repeat(e, n) + tail;
        Lookup(reg, k) + Repeat(e, m);
      }
    }
  }

  /** After registering, every character has a bucket, and exactly one when keys were unique before. */
  lemma RegisterCreatesBuckets<E>(reg: seq<KeyListener<E>>, characters: seq<Key>, e: E, c: Key)
    requires c in characters
    ensures Find(Register(reg, characters, e), c).Some?
    ensures UniqueKeys(reg) ==> UniqueKeys(Register(reg, characters, e))
  {
    RegisterLookup(reg, characters, e, c);
    CountPositive(characters, c);
  }

  /** `callbacks.filter(keep)`. */
  function Filter<E>(s: seq<E>, keep: E -> bool): (r: seq<E>)
    ensures |r| <= |s|
    ensures forall i :: 0 <= i < |r| ==> keep(r[i]) && r[i] in s
    ensures forall i :: 0 <= i < |s| && keep(s[i]) ==> s[i] in r
  {
    if s == [] then []
    else Filter(s[..|s| - 1], keep) + (if keep(s[|s| - 1]) then [s[|s| - 1]] else [])
  }

  lemma {:induction false} FilterAppend<E>(a: seq<E>, b: seq<E>, keep: E -> bool)
    ensures Filter(a + b, keep) == Filter(a, keep) + Filter(b, keep)
  {
    if b != [] {
      var b' := b[..|b| - 1];
      assert (a + b)[..|a + b| - 1] == a + b';
      FilterAppend(a, b', keep);
    } else {
      assert a + b == a;
    }
  }

  lemma {:induction false} FilterIdempotent<E>(s: seq<E>, keep: E -> bool)
    ensures Filter(Filter(s, keep), keep) == Filter(s, keep)
  {
    if s != [] {
      var init := s[..|s| - 1];
      var tail := if keep(s[|s| - 1]) then [s[|s| - 1]] else [];
      FilterIdempotent(init, keep);
      FilterAppend(Filter(init, keep), tail, keep);
    }
  }

  /** A filter that keeps every entry changes nothing. */
  lemma {:induction false} FilterKeepsAll<E>(s: seq<E>, keep: E -> bool)
    requires forall i :: 0 <= i < |s| ==> keep(s[i])
    ensures Filter(s, keep) == s
  {
    if s != [] {
      FilterKeepsAll(s[..|s| - 1], keep);
    }
  }

  /** Filtering copies of an entry the filter drops leaves nothing. */
  lemma {:induction false} FilterRepeat<E>(e: E, n: nat, keep: E -> bool)
    requires !keep(e)
    ensures Filter(Repeat(e, n), keep) == []
  {
    if n > 0 {
      FilterRepeat(e, n - 1, keep);
    }
  }

  /** One step of `off`'s loop: filter the bucket of `k`; no bucket, no change. */
  function Retain<E>(reg: seq<KeyListener<E>>, k: Key, keep: E -> bool): (r: seq<KeyListener<E>>)
    ensures SameKeys(reg, r)
    ensures Find(reg, k).None? ==> r == reg
    ensures Lookup(r, k) == Filter(Lookup(reg, k), keep)
    ensures forall k' :: k' != k ==> Lookup(r, k') == Lookup(reg, k')
  {
    match Find(reg, k)
    case None => reg
    case Some(i) =>
      var r := reg[i := KeyListener(k, Filter(reg[i].callbacks, keep))];
      forall k' ensures Find(r, k') == Find(reg, k') {
        FindSameKeys(r, reg, k');
      }
      r
  }

  /** What one step of `off` does to the bucket of any key. */
  lemma RetainLookup<E>(reg: seq<KeyListener<E>>, c: Key, keep: E -> bool, k: Key)
    ensures Lookup(Retain(reg, c, keep), k) == if c == k then Filter(Lookup(reg, k), keep) else Lookup(reg, k)
  {
  }

  /** The whole of `off`: the bucket of every character filtered in turn. */
  function Unregister<E>(reg: seq<KeyListener<E>>, characters: seq<Key>, keep: E -> bool): (r: seq<KeyListener<E>>)
    ensures SameKeys(reg, r)
  {
    if characters == [] then reg
    else Retain(Unregister(reg, characters[..|characters| - 1], keep), characters[|characters| - 1], keep)
  }

  /** Removing for one more character filters one more bucket. */
  lemma UnregisterStep<E>(reg: seq<KeyListener<E>>, characters: seq<Key>, i: nat, keep: E -> bool)
    requires i < |characters|
    ensures Unregister(reg, characters[..i + 1], keep) == Retain(Unregister(reg, characters[..i], keep), characters[i], keep)
  {
    assert characters[..i + 1][..i] == characters[..i];
  }

  /**
   * After `off`, each named bucket keeps exactly the entries the filter keeps,
   * in their order, and every other bucket is untouched; no bucket is created
   * or removed.
   */
  lemma {:induction false} UnregisterLookup<E>(reg: seq<KeyListener<E>>, characters: seq<Key>, keep: E -> bool, k: Key)
    ensures Lookup(Unregister(reg, characters, keep), k) ==
      if k in characters then Filter(Lookup(reg, k), keep) else Lookup(reg, k)
  {
    if characters != [] {
      var init := characters[..|characters| - 1];
      var c := characters[|characters| - 1];
      var before := Unregister(reg, init, keep);
      UnregisterLookup(reg, init, keep, k);
      RetainLookup(before, c, keep, k);
      InInitOrLast(characters, k);
      assert Unregister(reg, characters, keep) == Retain(before, c, keep);
      if c == k && k in init {
        FilterIdempotent(Lookup(reg, k), keep);
      }
    }
  }

  /** `off` twice is `off` once. */
  lemma UnregisterIdempotent<E>(reg: seq<KeyListener<E>>, characters: seq<Key>, keep: E -> bool)
    requires UniqueKeys(reg)
    ensures Unregister(Unregister(reg, characters, keep), characters, keep) == Unregister(reg, characters, keep)
  {
    var once := Unregister(reg, characters, keep);
    var twice := Unregister(once, characters, keep);
    forall k ensures Lookup(twice, k) == Lookup(once, k) {
      UnregisterLookup(reg, characters, keep, k);
      UnregisterLookup(once, characters, keep, k);
      FilterIdempotent(Lookup(reg, k), keep);
    }
    assert UniqueKeys(twice);
    RegistryExtensionality(twice, once);
  }

  /**
   * Removing with a filter that drops `e` after registering `e` leaves the
   * contents of every bucket as removing alone would have. The buckets that
   * registering created are not removed; see UnregisterKeepsCreatedBuckets.
   */
  lemma UnregisterUndoesRegister<E>(reg: seq<KeyListener<E>>, characters: seq<Key>, e: E, keep: E -> bool, k: Key)
    requires !keep(e)
    ensures Lookup(Unregister(Register(reg, characters, e), characters, keep), k) ==
            Lookup(Unregister(reg, characters, keep), k)
  {
    var n := Count(characters, k);
    RegisterLookup(reg, characters, e, k);
    UnregisterLookup(Register(reg, characters, e), characters, keep, k);
    UnregisterLookup(reg, characters, keep, k);
    CountPositive(characters, k);
    FilterAppend(Lookup(reg, k), Repeat(e, n), keep);
    FilterRepeat(e, n, keep);
  }

  /**
   * Removing right after registering does not remove the buckets that
   * registering created: afterwards exactly the old keys and the characters
   * have buckets, and a bucket created for a character is left empty.
   */
  lemma UnregisterKeepsCreatedBuckets<E>(reg: seq<KeyListener<E>>, characters: seq<Key>, e: E, keep: E -> bool, k: Key)
    requires !keep(e)
    ensures var after := Unregister(Register(reg, characters, e), characters, keep);
      Find(after, k).Some? <==> Find(reg, k).Some? || k in characters
    ensures var after := Unregister(Register(reg, characters, e), characters, keep);
      Find(reg, k).None? && k in characters ==> Lookup(after, k) == []
  {
    var registered := Register(reg, characters, e);
    var after := Unregister(registered, characters, keep);
    FindSameKeys(registered, after, k);
    UnregisterUndoesRegister(reg, characters, e, keep, k);
    UnregisterLookup(reg, characters, keep, k);
  }
}
