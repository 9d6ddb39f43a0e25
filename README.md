# Object-notation converter

A Dafny model of the key-notation utility of the ADK for JavaScript
(`core/src/utils/object_notation_utils.ts`). The utility walks a JSON-like
value and rewrites every object key. `toCamelCase` turns snake_case keys
into camelCase, and `toSnakeCase` does the reverse. Callers can list dotted
key paths. The value under a listed path is copied as is, but its own key is
still rewritten.

The project has four modules:

- `KeyCase` (`key_case.dfy`) holds the two key rewriters. The source writes
  them as global regular-expression replacements; here they are
  left-to-right character scans.
  - `CamelKey` is `toCamelCaseKey`: it rewrites `_` followed by an ASCII
    lowercase letter into that letter in uppercase.
  - `SnakeKey` is `toSnakeCaseKey`: it rewrites an ASCII uppercase letter
    into `_` plus the letter in lowercase.
- `Record` (`record.dfy`) is a JavaScript object built by assignment: an
  ordered sequence of (key, value) entries.
  - `SetField` is `result[k] = v`. A key already present keeps its place and
    takes the new value; a new key is appended.
  - `Assemble` replays a sequence of assignments into a fresh object. When
    two assignments use the same key, the key stays where it first appeared
    and the value of the last assignment wins.
- `ObjectNotation` (`notation.dfy`) holds the value tree and the traversal.
  - `ToNotation` and `Entries` form the traversal as a pure function.
  - `ToCamelCase` and `ToSnakeCase` are the two entry points.
  - `Transform` is the traversal as the utility runs it: it maps arrays and
    builds each object with a `for` loop of `SetField` assignments. It is
    proved to compute `ToNotation`.
- `NotationProperties` (`notation_properties.dfy`) holds the guarantees:
  - how primitives, arrays and objects are treated;
  - that preservation is decided by the exact dotted path of original keys;
  - that every key is rewritten when nothing is preserved;
  - the round trips and idempotence of the two entry points.

Paths follow the source (line 61), as `ObjectNotation.ChildPath` states.
An object entry's path is `parent + "." + key`, built from the original key
rather than the converted one. When the parent path is the empty string, the
path is the bare key. `ToNotation` (lines 43-79) and `Entries` (lines 59-72)
carry that path down. `Record.Assemble` (lines 57-73) replays the loop's
assignments into a fresh object. `ToCamelCase` and `ToSnakeCase`
(lines 14-33) start the walk with an empty parent path.

One consequence concerns a key nested under an empty top-level key `""`.
The empty root key's own path is `""`, which is its dot-join, but every
key below it gets a path that differs from the dot-join of the keys from
the root. For example, the nested key `a` in `{"": {"a": ...}}` has path
`"a"`, while the dot-join of its keys is `".a"`. Listing `"a"` therefore
preserves that nested value, as `EmptyRootKeyPath` shows. `PathIsDotJoin`
needs a non-empty root key on every path because of this.

For the key `"Foo"`, the code gives `CamelKey(SnakeKey("Foo")) == "Foo"`:
`SnakeKey` yields `"_foo"`, and `CamelKey` turns that back into `"Foo"`.
The general statement is `CamelKeyUndoesSnakeKey`, which needs only that the
key has no `_` followed by a lowercase letter; case is not restricted.

## Model

| member | source | states |
|---|---|---|
| KeyCase.UpperOf | core/src/utils/object_notation_utils.ts:37 | a lowercase ASCII letter becomes its own uppercase letter (code point minus 32); every other character is kept |
| KeyCase.LowerOf | core/src/utils/object_notation_utils.ts:41 | an uppercase ASCII letter becomes its own lowercase letter (code point plus 32); every other character is kept |
| KeyCase.CaseMapsInverse | core/src/utils/object_notation_utils.ts:35-41 | lowercasing undoes uppercasing on lowercase letters, and uppercasing undoes lowercasing on uppercase letters |
| KeyCase.CamelKey | core/src/utils/object_notation_utils.ts:35-38 | the camelCase rewrite never lengthens a key |
| KeyCase.SnakeKey | core/src/utils/object_notation_utils.ts:40-41 | the snake_case rewrite never shortens a key, and its output holds no ASCII uppercase letter |
| KeyCase.SnakeKeyConcat | core/src/utils/object_notation_utils.ts:41 | the global replacement rewrites each character on its own: the rewrite of a concatenation is the concatenation of the rewrites |
| KeyCase.CamelKeyHasNoBreak | core/src/utils/object_notation_utils.ts:35-38 | no `_` followed by a lowercase letter survives the camelCase rewrite |
| KeyCase.CamelKeyIdentity | core/src/utils/object_notation_utils.ts:35-38 | the camelCase rewrite leaves a key unchanged if and only if the key holds no `_` followed by a lowercase letter |
| KeyCase.CamelKeyFixesNoBreak | core/src/utils/object_notation_utils.ts:35-38 | a key with no `_` followed by a lowercase letter is left unchanged by the camelCase rewrite |
| KeyCase.CamelKeyIdempotent | core/src/utils/object_notation_utils.ts:35-38 | applying the camelCase rewrite twice gives the same key as applying it once |
| KeyCase.SnakeKeyIdentity | core/src/utils/object_notation_utils.ts:40-41 | the snake_case rewrite leaves a key unchanged if and only if the key holds no uppercase letter |
| KeyCase.SnakeKeyIdempotent | core/src/utils/object_notation_utils.ts:40-41 | applying the snake_case rewrite twice gives the same key as applying it once |
| KeyCase.SnakeKeyUndoesCamelKey | core/src/utils/object_notation_utils.ts:35-41 | a key with no uppercase letter comes back unchanged after the camelCase rewrite and then the snake_case rewrite |
| KeyCase.CamelKeyUndoesSnakeKey | core/src/utils/object_notation_utils.ts:35-41 | a key with no `_` followed by a lowercase letter comes back unchanged after the snake_case rewrite and then the camelCase rewrite |
| Record.FirstIndex | core/src/utils/object_notation_utils.ts:64 | the position of the first occurrence of a key: that position holds the key and no earlier position does |
| Record.Lookup | core/src/utils/object_notation_utils.ts:64 | reading a key finds a value exactly when the key is present, and the value is the one stored at the key's first position |
| Record.SetField | core/src/utils/object_notation_utils.ts:64-71 | assigning to a present key replaces that entry where it stands; assigning to an absent key appends the entry |
| Record.SetFieldKeys | core/src/utils/object_notation_utils.ts:64-71 | an assignment leaves the key order alone for a present key and appends the key for a new one |
| Record.SetFieldLookup | core/src/utils/object_notation_utils.ts:64-71 | after an assignment, the assigned key reads back the new value and every other key reads back its old value |
| Record.AssembleKeys | core/src/utils/object_notation_utils.ts:57-73 | an object built by assignments holds no key twice, and it holds exactly the keys that were assigned |
| Record.AssembleLookup | core/src/utils/object_notation_utils.ts:57-73 | in an object built by assignments, each key reads back the value of the last assignment to it |
| Record.LastValueAt | core/src/utils/object_notation_utils.ts:57-73 | an assignment that no later assignment to the same key follows is the last value for that key |
| Record.AssembleEntriesFrom | core/src/utils/object_notation_utils.ts:57-73 | every entry of an object built by assignments is one of the assignments |
| Record.AssembleOrder | core/src/utils/object_notation_utils.ts:57-73 | the keys of an object built by assignments stand in the order in which each key was first assigned |
| Record.AssembleDistinct | core/src/utils/object_notation_utils.ts:57-73 | assignments to pairwise different keys build exactly those entries, in order |
| ObjectNotation.Transform | core/src/utils/object_notation_utils.ts:43-79 | the loop that maps arrays and assigns converted entries into a fresh object computes exactly the pure traversal `ToNotation` |
| NotationProperties.PrimitivesUnchanged | core/src/utils/object_notation_utils.ts:78 | strings, numbers, booleans, null and undefined come back unchanged from both entry points, whatever is preserved |
| NotationProperties.ArrayTransparent | core/src/utils/object_notation_utils.ts:49-52 | an array keeps its length and order; each element is converted under the array's own path, so indices never enter a path |
| NotationProperties.ObjectKeys | core/src/utils/object_notation_utils.ts:59-72 | a converted object holds no key twice, its keys are exactly the converted source keys (preserved ones too), and each key stands where it was first produced |
| NotationProperties.ObjectLastWins | core/src/utils/object_notation_utils.ts:60-71 | the value under a converted key comes from the last source key that converts to it: copied as is when that key's path is listed in the preserve list, and converted under that path otherwise |
| NotationProperties.ToNotationWellFormed | core/src/utils/object_notation_utils.ts:57-73 | a converted value never holds a key twice in any object, given that the input does not |
| NotationProperties.PathIsDotJoin | core/src/utils/object_notation_utils.ts:61-63 | the converter agrees with a reference converter that preserves a value exactly when the dot-join of the original keys from the root is listed, provided the root key on each path is not empty |
| NotationProperties.EmptyRootKeyPath | core/src/utils/object_notation_utils.ts:61-63 | below an empty root key, a nested key's path is the bare key rather than its dot-join, so listing the bare key preserves the nested value |
| NotationProperties.EmptyPreserveMapsKeys | core/src/utils/object_notation_utils.ts:59-71 | with an empty preserve list, the converter rewrites every key at every depth, arrays included |
| NotationProperties.MapKeysWellFormed | core/src/utils/object_notation_utils.ts:57-73 | rewriting every key always produces objects that hold no key twice |
| NotationProperties.MapKeysAllKeys | core/src/utils/object_notation_utils.ts:60 | every key of a rewritten value is an output of the rewriter |
| NotationProperties.MapKeysInverse | core/src/utils/object_notation_utils.ts:59-71 | rewriting with g after f gives the value back when g undoes f on all of the value's keys |
| NotationProperties.MapKeysFixed | core/src/utils/object_notation_utils.ts:59-71 | rewriting with f gives the value back when f leaves every one of its keys alone |
| NotationProperties.IdentityRule | core/src/utils/object_notation_utils.ts:43-79 | converting with a rewriter that changes no key gives the value back, whatever is preserved |
| NotationProperties.SnakeCaseKeysHaveNoUpper | core/src/utils/object_notation_utils.ts:28-33 | with nothing preserved, no key of the toSnakeCase result holds an uppercase letter |
| NotationProperties.CamelCaseKeysHaveNoBreak | core/src/utils/object_notation_utils.ts:14-19 | with nothing preserved, no key of the toCamelCase result holds a `_` followed by a lowercase letter |
| NotationProperties.SnakeCaseUndoesCamelCase | core/src/utils/object_notation_utils.ts:14-33 | toSnakeCase after toCamelCase gives back any value whose keys hold no uppercase letter |
| NotationProperties.CamelCaseUndoesSnakeCase | core/src/utils/object_notation_utils.ts:14-33 | toCamelCase after toSnakeCase gives back any value whose keys hold no `_` followed by a lowercase letter |
| NotationProperties.SnakeCaseIdempotent | core/src/utils/object_notation_utils.ts:28-33 | with nothing preserved, applying toSnakeCase twice gives the same value as applying it once |
| NotationProperties.CamelCaseIdempotent | core/src/utils/object_notation_utils.ts:14-19 | with nothing preserved, applying toCamelCase twice gives the same value as applying it once |

## Left out

- The JavaScript runtime's object semantics are modelled by a tagged `Value` with ordered entries. The model does not capture:
  - `Object.keys` listing integer-like keys first, in numeric order;
  - class instances or `Date` objects counting as plain objects because `typeof obj === 'object'` (line 55);
  - non-enumerable and inherited properties;
  - a preserved value being shared by reference with the input rather than copied (line 64).
- SetField and ObjectKeys do not model the `__proto__` setter. In JavaScript, `result["__proto__"] = value` on a plain object (lines 64 and 66) replaces the result's prototype when the value is an object, and drops the value when it is a primitive. Either way no own key is created. The model stores `__proto__` as an ordinary key. So for an input holding a `__proto__` key, `ObjectKeys` lists one key more than `Object.keys` of the source's result.
- Cyclic inputs are not modelled. The source's recursion does not terminate on them, and `Value` is inductive, so every value here is acyclic.
- Numbers are opaque integers; floating point plays no part in the converter.
- Only the ASCII letters count as letters. This matches the `[a-z]` and `[A-Z]` classes in the regular expressions.
- The round-trip and idempotence lemmas for the entry points (`SnakeCaseUndoesCamelCase`, `CamelCaseUndoesSnakeCase`, `SnakeCaseIdempotent`, `CamelCaseIdempotent`) are stated for an empty preserve list only. A preserved subtree is copied as is, so its keys are not rewritten.
- `ToNotationWellFormed` assumes a well-formed input. A JavaScript object cannot hold a key twice, so every real input qualifies.
- The unit tests' concrete inputs are not restated as separate examples. What they check is covered by the general lemmas: `PrimitivesUnchanged`, `ArrayTransparent`, `EmptyPreserveMapsKeys`, `ObjectLastWins` and `PathIsDotJoin`.
- core/src/events/event.js is not part of this model, and neither are the event transforms that call the converter with its preserve list (core/test/events/event_test.ts).
- The mock model client and its replay loop (tests/integration/agents/test_case_utils.ts) are framework wiring around asynchronous iteration, so they are not modelled. The same goes for the agent test (tests/integration/agents/simple_agent_with_tools/agent_test.ts).
- The issue auto-assignment script (scripts/auto-assignment.mjs) is a network call to GitHub plus logging, so it is not modelled.
- core/src/events/agent_event.ts is not modelled: it holds only type and enum declarations.
