# Keyboard shortcut dispatcher, modelled in Dafny

The library lets user code register a callback for a combination of keys,
such as `ctrl` + `s`. It tracks which keys are held and runs the callback
when exactly that combination is down. The repository ships two revisions
of the dispatcher. This model covers both.

- **`lib/index.js`**, the compiled revision, is modelled in module
  `LibShortcuts` (`lib_bus.dfy`).
  - A `ShortcutBus` keeps a list of *key listeners*: one bucket per key,
    holding the entries registered for that key.
  - Each entry carries an id, which is the text of its callback, plus the
    callback, the resolved options and the combination.
  - `on(characters, callback, options)` adds one entry to the bucket of
    every character.
  - `off(characters, callback)` removes, from the same buckets, every
    entry whose id is the callback's text.
  - On a key-down, the bus normalises the key name, looks up its bucket and
    holds the key. It runs every entry of the bucket against the held keys.
    If any entry fired, it releases that key.
  - A key-up releases the key.
  - `shortcut` registers on a bus and returns a handle that calls `off`.
- **`src/index.ts`**, the TypeScript revision, is modelled in module
  `SrcShortcuts` (`src_bus.dfy`).
  - Buckets hold anonymous wrapper closures.
  - Options default to preventing the default action and stopping
    propagation.
  - A key-down that fired something clears every held key.
  - A separate `Shortcut` class listens for a single combination with its
    own list of held keys.

Two more modules hold what both revisions share.

- **`Keys`** (`keys.dfy`) holds key normalisation and the held-key list
  operations: push-if-absent and filter-out.
  - It holds the match test of `checkActiveShortcut`: as many keys held as
    the combination is long, and every character held.
  - It holds the effect log of one event.
- **`Registry`** (`registry.dfy`) holds the list of buckets. It is generic
  in what a bucket holds.
  - `Find` stands for `keyListeners.find`.
  - `AddEntry` and `Register` stand for the fan-out loop of `on`.
  - `Retain` and `Unregister` stand for the filtering loop of `off`.

Both buses are classes. Their `keyListeners` and `activeKeys` fields are
sequences that the methods reassign. Every method is proved against a
function of the old state:
- `Register` and `Unregister` for `on` and `off`;
- `KeyDown` and `Without` for the key handlers;
- `SingleKeyDown` for `Shortcut`.

Lemmas then state what those functions promise:
- which callbacks a key-down invokes;
- when a held key fires again;
- that the compiled bus's `off`, and the corrected TypeScript
  `OffByCallback`, right after `on` leave every bucket with the contents it
  would have had without `on`; the buckets that `on` created remain, empty,
  so a key-down of their key still holds that key. The TypeScript `off` as
  written removes nothing (see "## Findings");
- that matching is set equality for a combination without repeated keys.

Events and callbacks are not run. A key event is its raw key name. What the
dispatcher does to the event and to user code is recorded as a log of
`Effect` values: `PreventDefault`, `StopPropagation`,
`StopImmediatePropagation` and `Invoke(callback)`.

Option defaults differ between the revisions. The compiled bus defaults
every option to `false` (`lib/index.js:50-54`). The TypeScript bus and
`Shortcut` default `preventDefault` and `stopProppagation` to `true`
(`src/index.ts:63`, `src/index.ts:150`).

Releasing keys after a firing does not stop every refire on the host's
key repeat:
- The comment at `lib/index.js:154-155` says the pressed key is released
  so that a held-down key does not run the callback again. The code does
  not achieve this for key repeat. The repeated key-down pushes the key
  again and produces the same log (`LibShortcuts.HeldKeyRefires`).
- The TypeScript bus clears every held key after a firing
  (`src/index.ts:126`). This stops the refire only when every entry in the
  key's bucket guards two or more keys (`SrcShortcuts.HeldKeyDoesNotRefire`).
  A one-key combination still fires on every repeat, because the cleared
  list holds just the repeated key again, and that matches
  (`SrcShortcuts.OneKeyCombinationRefires`).

## Model

| member | source | states |
|---|---|---|
| Keys.Normalize | lib/index.js:136-140 | A raw key name is renamed exactly when it is Control, Alt, Shift or Tab; Control becomes ctrl, Alt alt, Shift shift and Tab tab |
| Keys.Matches | lib/index.js:114-118 | A match implies every character of the combination is held; the empty combination matches only when no key is held. Both follow directly from the test; what the test amounts to is stated by `Keys.MatchesIsSetEquality` |
| Keys.NormalizeCanonical | lib/index.js:5-10 | Normalising renames exactly Control, Alt, Shift and Tab to ctrl, alt, shift and tab, keeps every other name, and is idempotent |
| Keys.Press | lib/index.js:145-146 | After a key-down the key is held, the held list gains exactly that key, it is appended at the end only when it was not already held, and no key is held twice |
| Keys.Without | lib/index.js:163-173 | Releasing a key removes exactly that key, never lengthens the list, changes nothing when the key was not held, and keeps keys distinct |
| Keys.WithoutKeepsOrder | lib/index.js:157 | Filtering out a key keeps the other held keys in their order |
| Keys.WithoutOne | lib/index.js:157 | Releasing a held key among distinct keys shortens the list by exactly one |
| Keys.WithoutPress | lib/index.js:145-157 | Releasing a key that was just pressed restores the previous held list |
| Keys.MatchesIsSetEquality | lib/index.js:111-118 | For distinct held keys and a combination without repeats, the match test holds iff the held keys are exactly the combination's keys |
| Keys.MatchesIgnoresOrder | src/index.ts:99-101 | The match test depends only on how many keys are held and which, not on press order |
| Keys.RepeatedCharacterAdmitsExtraKey | lib/index.js:114-118 | A combination that repeats a character matches a held set with an extra unrelated key: ["a","a"] matches "a" and "b" held |
| Keys.InvokedAppend | lib/index.js:148-153 | The callbacks invoked by two logs run one after the other are those of the first, then those of the second |
| Registry.Find | lib/index.js:58 | `find` returns the first bucket whose key is the given key, and none exactly when no bucket has it |
| Registry.Lookup | lib/index.js:142 | A key with no bucket has no entries; with unique keys, a key's entries are exactly its bucket's callbacks |
| Registry.AddEntry | lib/index.js:57-73 | Adding an entry for a key appends it to that key's bucket; a missing bucket is created as exactly one new bucket at the end; no other bucket appears or changes, existing ones keep their places, and keys stay unique |
| Registry.Register | lib/index.js:56-74 | After the fan-out, exactly the old keys and the combination's characters have buckets; existing buckets keep their places and keys stay unique |
| Registry.RegisterLookup | lib/index.js:56-74 | After the fan-out, each key's bucket is its old contents followed by the entry once per occurrence of the key in the combination |
| Registry.RegisterCreatesBuckets | src/index.ts:65-77 | Every character of a registered combination has a bucket afterwards, and bucket keys stay unique |
| Registry.Filter | lib/index.js:88-93 | Filtering a bucket keeps exactly the entries that pass the test: each kept entry passes and comes from the bucket, and each passing entry of the bucket is kept |
| Registry.FilterAppend | lib/index.js:88-93 | Filtering a concatenation filters each part and keeps their order |
| Registry.FilterIdempotent | lib/index.js:88-93 | Filtering twice with the same test is the same as filtering once |
| Registry.Retain | lib/index.js:84-93 | Filtering one key's bucket keeps every bucket in place; it changes nothing when the key has no bucket and no other bucket is touched |
| Registry.Unregister | lib/index.js:83-94 | Filtering the buckets of every character keeps the same keys in the same places |
| Registry.UnregisterLookup | lib/index.js:81-95 | After `off`, the bucket of each character is filtered and every other bucket is unchanged |
| Registry.UnregisterIdempotent | lib/index.js:81-95 | Removing the same callback twice is the same as removing it once |
| Registry.UnregisterUndoesRegister | lib/index.js:185-191 | Removing entries that the removal test rejects right after registering them leaves each bucket's contents as removing alone would have; the buckets themselves are not removed |
| Registry.UnregisterKeepsCreatedBuckets | lib/index.js:56-94 | Removing right after registering leaves buckets for exactly the old keys and the combination's characters, and a bucket that registering created is empty |
| LibShortcuts.Resolve | lib/index.js:50-54 | Each option missing from the caller's options defaults to false; each given option is kept |
| LibShortcuts.Suppressions | lib/index.js:119-125 | preventDefault, stopPropagation and stopImmediatePropagation are applied exactly when enabled, in that order, and invoke nothing |
| LibShortcuts.DispatchLog | lib/index.js:147-153 | Running a bucket records nothing exactly when none of its entries fires |
| LibShortcuts.AnyFires | lib/index.js:147-153 | The flag that the loop over the bucket sets and never clears ends true iff some entry of the bucket matches the held keys |
| LibShortcuts.DispatchInvokesMatching | lib/index.js:147-153 | Running a bucket invokes exactly the callbacks of its matching entries, in bucket order, and sets the executed flag iff one ran |
| LibShortcuts.DispatchIgnoresOrder | lib/index.js:111-118 | Running a bucket against two held lists with the same keys gives the same log and the same flag |
| LibShortcuts.KeyDown | lib/index.js:134-158 | A key with no bucket changes neither the held keys nor the log; held keys stay distinct |
| LibShortcuts.KeyDownFiresMatching | lib/index.js:142-153 | A key-down invokes the callbacks of the bucket's entries matching the held keys with the key added |
| LibShortcuts.KeyDownReleasesPressedKey | lib/index.js:154-157 | After a key-down that invoked something, exactly the pressed key is released; otherwise a key with a bucket stays held |
| LibShortcuts.HeldKeyRefires | lib/index.js:154-157 | Releasing only the pressed key does not stop the host's key repeat: the next key-down of the same key produces the same log again |
| LibShortcuts.PairBuckets | lib/index.js:56-74 | Registering "a"+"b" on an empty bus gives "a" and "b" each a bucket holding just the entry |
| LibShortcuts.FirstOfPair | lib/index.js:134-158 | With an "a"+"b" entry in "a"'s bucket, pressing "a" alone holds "a" and records nothing |
| LibShortcuts.SecondOfPair | lib/index.js:134-158 | With "a" held and the entry in "b"'s bucket, pressing "b" invokes the callback once and leaves "a" held |
| LibShortcuts.PressingBothKeysFiresOnce | lib/index.js:44-158 | On an empty bus with "a"+"b" registered, "a" then "b" invokes the callback exactly once, on the second key |
| LibShortcuts.OffRemovesEveryEntryOfText | lib/index.js:81-95 | After `off`, no entry with the callback's text is left in the buckets of its characters, and other buckets are unchanged |
| LibShortcuts.HandleUndoesShortcut | lib/index.js:185-191 | Calling the handle returned by `shortcut` leaves each bucket's contents as if only the removal had happened; buckets it created remain |
| LibShortcuts.HandleLeavesEmptyBuckets | lib/index.js:59-64 | A key that had no bucket is ignored on key-down before `shortcut`; after `shortcut` and its handle its bucket remains, empty, and a key-down of it holds the key and records nothing |
| LibShortcuts.ShortcutBus.constructor | lib/index.js:12-18 | A new bus has no buckets and no held keys |
| LibShortcuts.ShortcutBus.On | lib/index.js:44-75 | An empty combination fails with "No shortcut provided" and changes nothing; otherwise the buckets become `Register` of the old ones with the resolved entry, and held keys are unchanged |
| LibShortcuts.ShortcutBus.Off | lib/index.js:81-95 | The buckets become `Unregister` of the old ones, dropping entries whose id is the callback's text; held keys are unchanged |
| LibShortcuts.ShortcutBus.OffAll | lib/index.js:99-102 | All buckets and held keys are cleared |
| LibShortcuts.ShortcutBus.CheckActiveShortcut | lib/index.js:111-129 | Fires iff as many keys are held as the combination is long and each of its characters is held; if it fires, it logs the enabled suppressions then the invocation, otherwise nothing |
| LibShortcuts.ShortcutBus.OnKeyDown | lib/index.js:134-158 | The new held keys and the log are those of `KeyDown` on the old state; buckets are unchanged |
| LibShortcuts.ShortcutBus.OnKeyUp | lib/index.js:163-173 | The normalised key is released; buckets are unchanged |
| LibShortcuts.Shortcut | lib/index.js:185-191 | Registers on the given bus as `on` does and returns a handle naming the same combination and callback, or fails on an empty combination |
| LibShortcuts.Release | lib/index.js:188-190 | Calling the handle removes the callback's entries from its combination's buckets |
| SrcShortcuts.Resolve | src/index.ts:63 | A missing preventDefault or stopProppagation defaults to true; given values and the callback are kept |
| SrcShortcuts.Suppressions | src/index.ts:103-104 | preventDefault and stopPropagation are applied exactly when enabled, in that order; stopImmediatePropagation never is |
| SrcShortcuts.FireInvokesCallback | src/index.ts:103-107 | Firing invokes exactly the options' callback, once |
| SrcShortcuts.DispatchLog | src/index.ts:121-125 | Running a bucket records nothing exactly when none of its wrappers fires |
| SrcShortcuts.AnyFires | src/index.ts:121-125 | The flag that the loop over the bucket sets and never clears ends true iff some wrapper of the bucket matches the held keys |
| SrcShortcuts.DispatchInvokesMatching | src/index.ts:121-125 | Running a bucket invokes exactly the callbacks of its matching wrappers, in bucket order, and sets the flag iff one ran |
| SrcShortcuts.KeyDown | src/index.ts:110-127 | A key with no bucket changes nothing; held keys stay distinct |
| SrcShortcuts.KeyDownClearsOnFire | src/index.ts:117-126 | A key-down invokes the callbacks of matching wrappers; if one ran no key is held afterwards, otherwise a key with a bucket stays held |
| SrcShortcuts.HeldKeyDoesNotRefire | src/index.ts:126 | When every entry in the pressed key's bucket guards two or more keys, a key-down that fired is followed by a repeated key-down of the same key that invokes nothing; a one-key combination is not covered and does refire |
| SrcShortcuts.OneKeyFires | src/index.ts:110-126 | With no key held and a one-key "a" wrapper in "a"'s bucket, a key-down of "a" fires it and leaves no key held |
| SrcShortcuts.OneKeyCombinationRefires | src/index.ts:117-126 | After registering a callback for "a", a key-down of "a" and a repeated key-down of "a" each invoke it, so clearing the held keys does not stop a one-key combination from refiring |
| SrcShortcuts.OffAsWrittenKeepsEverything | src/index.ts:80-92 | `off` compares a wrapper's text with the callback's text, so for any callback whose text differs from the wrapper's it removes nothing |
| SrcShortcuts.OffAsWrittenStillFires | src/index.ts:85-90 | Registering a callback for "a", calling `off` for it and pressing "a" still invokes it |
| SrcShortcuts.OffByCallbackUndoesOn | src/index.ts:80-92 | Removing wrappers by their callback's text right after `on` leaves each bucket's contents as removing alone would have; buckets `on` created remain |
| SrcShortcuts.OffByCallbackLeavesEmptyBuckets | src/index.ts:67-72 | A key that had no bucket is ignored on key-down before `on`; after `on` and the corrected `off` its bucket remains, empty, and a key-down of it holds the key and records nothing |
| SrcShortcuts.OffByCallbackSilences | src/index.ts:80-92 | With removal by the callback's text, the same sequence invokes nothing |
| SrcShortcuts.ShortcutBus.constructor | src/index.ts:33-45 | A new bus has no buckets and no held keys |
| SrcShortcuts.ShortcutBus.On | src/index.ts:61-78 | An empty combination fails with "No shortcut provided" and changes nothing; otherwise the buckets become `Register` of the old ones with the wrapper |
| SrcShortcuts.ShortcutBus.Off | src/index.ts:80-92 | The buckets become `Unregister` with the comparison as written, which leaves them unchanged for any ordinary callback |
| SrcShortcuts.ShortcutBus.OffByCallback | src/index.ts:80-92 | The buckets become `Unregister` dropping wrappers whose callback's text is the given callback's |
| SrcShortcuts.ShortcutBus.OffAll | src/index.ts:94-97 | All buckets and held keys are cleared |
| SrcShortcuts.ShortcutBus.CheckActiveShortcut | src/index.ts:99-108 | Fires iff the held keys are as many as the combination and include each character; logs suppressions then the invocation when it fires |
| SrcShortcuts.ShortcutBus.OnKeyDown | src/index.ts:110-127 | The new held keys and log are those of `KeyDown` on the old state; buckets are unchanged |
| SrcShortcuts.ShortcutBus.OnKeyUp | src/index.ts:129-138 | The normalised key is released; buckets are unchanged |
| SrcShortcuts.SingleKeyDown | src/index.ts:161-179 | A `Shortcut` key-down keeps held keys distinct |
| SrcShortcuts.SingleFiresIffSameKeys | src/index.ts:170-178 | A `Shortcut` with distinct keys invokes its callback iff, with the key added, the held keys are exactly its keys; after a firing no key is held, otherwise the pressed key joins the held keys |
| SrcShortcuts.UnrelatedKeyBlocks | src/index.ts:161-172 | While a key outside the combination is held, a `Shortcut` fires nothing and only holds the new key |
| SrcShortcuts.Shortcut.constructor | src/index.ts:149-154 | A `Shortcut` keeps the resolved options and the combination, even an empty one, and holds no key |
| SrcShortcuts.Shortcut.OnKeyDown | src/index.ts:161-179 | The new held keys and log are those of `SingleKeyDown` on the old held keys |
| SrcShortcuts.Shortcut.OnKeyUp | src/index.ts:181-190 | The normalised key is released |
| SrcShortcuts.EmptyShortcutNeverFires | src/index.ts:149-151 | A `Shortcut` built with no keys never fires, because a key-down always holds at least one key |

## Left out

- `attach`, `detach`, the constructors' window listeners and the bound
  handler fields are host I/O. Key events enter the model as calls to
  `OnKeyDown` and `OnKeyUp` with the raw key name.
- The module-level singleton `bus` and the default export are left out.
  `LibShortcuts.Shortcut` and `LibShortcuts.Release` take the bus as a
  parameter.
- Callback bodies and the `KeyboardEvent` methods are recorded as `Effect`
  values, not run.
- Exceptions thrown by a user callback are left out. So are calls to
  `on`/`off` made from inside a callback during dispatch. The model runs a
  bucket as it was when the key went down.
- `key in shortcutMap` in JavaScript also accepts inherited property names
  such as `toString`. The model treats the map as exactly its four entries.
- A function's source text is modelled by the `text` field of `Callback`.
  `SrcShortcuts.WrapperText` stands for the text of the arrow function that
  `on` pushes. The model relies only on it differing from a user
  callback's text.
- The `ShortcutCharacter` literal union of the TypeScript revision restricts
  keys at compile time only. The model accepts any key name.
- Buckets are modelled as values inside the bucket list. In the source they
  are shared objects, but nothing outside the bus holds a reference to one,
  so no aliasing of buckets is lost.
- LibShortcuts.Entry and LibShortcuts.OffHandle copy the combination as a
  value. In `lib/index.js` the entry's closure (`lib/index.js:69-71`) and the
  handle (`lib/index.js:188-190`) keep a reference to the caller's
  `characters` array, so a caller who mutates that array later changes both
  the match test and the buckets that the handle filters. The model does
  not capture this. The TypeScript revision is not affected, because its rest
  parameters build a fresh array.
- SrcShortcuts.Resolve: a `None` flag stands for an absent property. An
  option given explicitly as `undefined` is not modelled. Object spread
  (`src/index.ts:63`, `src/index.ts:150`) copies it over the `true` default,
  so the source then skips that suppression while the model applies it. The
  compiled revision gives the same result either way, because its default
  is `false`.
- `lib/index.d.ts` only declares types and is not part of this model.

## Findings

| source | as written | input that shows it | evidently intended | confidence | as-written member | corrected member |
|---|---|---|---|---|---|---|
| src/index.ts:85-90 | `off` compares each wrapper closure's text with the callback's text, and a wrapper's text is not the user callback's text | `on({callback: cb}, "a")`, then `off(cb, "a")`, then a key-down of "a": `cb` still runs | remove the wrappers registered for `cb`, as `lib/index.js:88-93` does by comparing the stored id with the callback's text | high; not executed | SrcShortcuts.OffAsWrittenStillFires | SrcShortcuts.OffByCallbackSilences |
