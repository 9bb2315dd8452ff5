# three-es6 core logic in Dafny

This project models the parts of the three-es6 scene demo that are its own
logic rather than calls into three.js or Ammo.js:

- **The keyboard helper** (`src/utils/keyboard.js`). It keeps a table of
  key codes to "down" flags. Key events (`onKeyChange`) update the table and
  window blur (`onBlur`) clears it. Key combinations such as `"ctrl+a"` or
  `"left+space"` can be asked of the table (`pressed`) or of a single event
  (`eventMatches`).
  - `strings.dfy` (module `Strings`) models JavaScript's `split('+')`, its
    inverse `join`, and the first character code after `toUpperCase`.
  - `keyboard.dfy` (module `Keyboard`) models the alias table, the two
    updates and the two queries as pure functions over `map<int, bool>`.
    The queries return a value and nothing else, so neither can change the
    table, as in the code.
- **The falling-object scheduler of the animation loop** (`src/app/main.js`,
  `animate`). Every frame, if fewer than 30 objects exist and the clock has
  passed `timeNextSpawn`, one object spawns and the next spawn is put 3
  seconds after the current clock; then the clock advances by the frame's
  delta. `spawn.dfy` (module `Spawn`) models this as a record with a pure
  `Step` and proves facts about whole runs of frames.
- **The heightfield loops** (`src/app/main.js`). `createTerrainShape` copies
  the row-major height grid into the physics engine's float heap.
  - The copy walks cell index `p` and byte offset `p2 = 4 * p`, and writes
    slot `(base + p2) >> 2`.
  - The constructor writes height `i` into the y slot `3 * i + 1` of the
    mesh's flat vertex array.
  - `terrain.dfy` (module `Terrain`) models both loops as methods over
    sequences. Loop invariants prove their results against independent
    definitions.

Typed-array semantics are kept where the loops depend on them:
- a read past the end gives `undefined`, which a `Float32Array` stores as NaN (the
  `nan` parameter);
- a write outside the array is dropped;
- `>>` first wraps its operand to a signed 32-bit integer (`Terrain.Int32`).

Points where the code does something a reader might not expect, which the
model follows:
- `pressed` does not treat `shift`, `ctrl`, `alt` or `meta` specially. Only
  `eventMatches` reads the event's modifier flags. In `pressed`, `"ctrl"` is
  an ordinary name and stands for the key of its first letter, C (code 67).
  `Keyboard.PressedTreatsModifierAsLetter` states this.
- The vertex loop runs `i` up to the length of the flat position array, which is
  three times the vertex count. The extra iterations write past the end and
  are dropped, so the result is still one height per vertex
  (`Terrain.WriteVertexHeights`, `Terrain.PlaneVertexHeights`).
- The empty name (from `""`, or from `"a++b"`) has no first character.
  `charCodeAt(0)` gives NaN there, so no key ever matches it.

## Model

| member | source | states |
|---|---|---|
| `Keyboard.OnKeyChange` | src/utils/keyboard.js:37-44 | The event's key code becomes present, and is down exactly when the event type is "keydown". Every other key keeps its entry. |
| `Keyboard.OnBlur` | src/utils/keyboard.js:32-35 | Every key already in the table is set to up (false). No key is added or removed. |
| `Keyboard.Held` | src/utils/keyboard.js:49-56 | A name is held only if it is an alias or non-empty. An alias is held exactly when its table code is present and down. Any other non-empty name is held exactly when the code of its upper-cased first character is present and down. |
| `Keyboard.Matches` | src/utils/keyboard.js:70-85 | `shift`, `ctrl`, `alt` and `meta` match exactly when the event's matching flag is set. Every other name matches exactly when it resolves to the event's key code. |
| `Keyboard.KeyCodeOf` | src/utils/keyboard.js:51-55 | A name stands for no key exactly when it is not an alias and is empty. |
| `Keyboard.AliasCodes` | src/utils/keyboard.js:1-9 | left, up, right, down, space, tab and escape resolve to 37, 38, 39, 40, 32, 9 and 27. |
| `Keyboard.FirstCharOnly` | src/utils/keyboard.js:53-55 | A non-empty name that is not an alias resolves to the upper-cased code of its first character. It resolves like that character alone, so later characters are ignored. |
| `Keyboard.CaseInsensitive` | src/utils/keyboard.js:46-90 | A lower-case letter and its capital give the same answer in both `pressed` and `eventMatches`. |
| `Keyboard.AllTokens` | src/utils/keyboard.js:48-60 | The left-to-right loop with early `return false` yields true exactly when every name passes. |
| `Keyboard.Pressed` | src/utils/keyboard.js:46-61 | `pressed(desc)` is true exactly when every `+`-separated name resolves to a key that is in the table and down. |
| `Keyboard.EventMatches` | src/utils/keyboard.js:63-90 | `eventMatches(e, desc)` is true exactly when every name matches the event. Its inputs are the event and the string only, never the key table. |
| `Keyboard.EmptyNeverMatches` | src/utils/keyboard.js:46-90 | `pressed("")` and `eventMatches(e, "")` are false for every table and event. |
| `Keyboard.PressedTreatsModifierAsLetter` | src/utils/keyboard.js:46-61 | In `pressed`, a modifier name resolves to the code of its upper-cased first letter (83, 67, 65 or 77). It is pressed exactly when that key is down. |
| `Keyboard.EventModifierFlags` | src/utils/keyboard.js:72-79 | In `eventMatches`, a modifier name matches exactly when the event's matching flag is set, whatever the key code. |
| `Keyboard.Combination` | src/utils/keyboard.js:46-90 | `a+b` is pressed (or matches an event) exactly when both `a` and `b` are. |
| `Keyboard.BlurReleasesAll` | src/utils/keyboard.js:32-35 | After a blur, no combination is pressed. |
| `Keyboard.PressedAfterKeyChange` | src/utils/keyboard.js:42-43 | After one event, a name for the event's key is held exactly when the event was "keydown". Every other name is held exactly as before. |
| `Keyboard.PressedAgreesWithEvent` | src/utils/keyboard.js:46-90 | A fresh keyboard sees one event. For every combination without modifier names, `pressed` is true exactly when the event was a keydown and `eventMatches` is true. |
| `Strings.Split` | src/utils/keyboard.js:47 | `split('+')` always yields at least one piece, even for the empty string. |
| `Strings.SplitShape` | src/utils/keyboard.js:47 | `split('+')` yields one more piece than there are `+` characters, and no piece contains `+`. |
| `Strings.JoinSplit` | src/utils/keyboard.js:47 | Joining the pieces of `split('+')` with `+` gives back the string. |
| `Strings.SplitJoin` | src/utils/keyboard.js:47 | Splitting the join of at least one `+`-free piece gives back the pieces. |
| `Strings.SplitConcat` | src/utils/keyboard.js:47 | Splitting `x + "+" + y` gives the pieces of `x` followed by the pieces of `y`. |
| `Strings.UpperCode` | src/utils/keyboard.js:54 | Upper-casing sends each of a to z to its own capital (same place in the alphabet) and leaves every other character's code alone. |
| `Spawn.Initial` | src/app/main.js:42-45 | At load, time is 0, no objects exist and the next spawn is one period (3) after the start. |
| `Spawn.Run` | src/app/main.js:194-208 | A run of frames, one per `requestAnimationFrame` callback, never loses objects and adds at most one per frame. |
| `Spawn.Step` | src/app/main.js:194-205 | A frame adds one object exactly when the count is below 30 and time is strictly past `timeNextSpawn`, else none. After a spawn the next spawn is the old time plus 3, otherwise it is unchanged. The count stays within 30. Time grows by delta. |
| `Spawn.RunCount` | src/app/main.js:199-202 | Over any run, the count grows by exactly the number of spawning frames and never exceeds 30. There is at most one spawn per frame. |
| `Spawn.CountBounded` | src/app/main.js:39-45 | From the initial state, the object count is at most 30 and at most the number of frames. |
| `Spawn.RunTime` | src/app/main.js:205 | The clock after a run is the start plus the sum of the deltas. It never decreases when no delta is negative. |
| `Spawn.SpawnsAfterNext` | src/app/main.js:199-201 | Every spawn happens strictly after the starting `timeNextSpawn`, and `timeNextSpawn` never moves back. |
| `Spawn.SpawnsSpaced` | src/app/main.js:199-201 | Two successive spawns are more than 3 apart on the clock, for any frame times. |
| `Spawn.FirstSpawnLate` | src/app/main.js:42-44 | From the initial state, no object spawns before the clock passes 3. |
| `Terrain.Read` | src/app/main.js:138 | A typed-array read gives the element when the index is in range and `undefined` (stored as NaN) otherwise. |
| `Terrain.Store` | src/app/main.js:356 | A typed-array write changes only the written slot, and only when it is in range. The length never changes. |
| `Terrain.Int32` | src/app/main.js:356 | The operand of `>>` wraps to a signed 32-bit value congruent to it modulo 2^32. |
| `Terrain.HeapSlot` | src/app/main.js:356 | `(base + p2) >> 2` selects the float slot holding that byte address, when the address is below 2^31. |
| `Terrain.CopyRow` | src/app/main.js:353-362 | The inner loop visits the cells of row `j` in column order and advances `p` by the width, keeping `p2 = 4 * p`. It extends the copied prefix of the block. |
| `Terrain.CopyHeights` | src/app/main.js:347-363 | The copy visits each of the `width * depth` cells exactly once, in row-major order, at cell index `p` and byte offset `4 * p`. When the block lies in the heap, slot `base / 4 + p` ends up holding height `p` and every other heap slot is unchanged. |
| `Terrain.CopiedCell` | src/app/main.js:350-363 | For grid cell (row, col), the slot `base / 4 + row * width + col` lies in the heap and holds height `row * width + col`. |
| `Terrain.WriteVertexHeights` | src/app/main.js:136-139 | The vertex loop leaves y slot `3 * i + 1` holding height `i` (NaN past the end of the heights). x and z slots are untouched, and the array length is unchanged. |
| `Terrain.PlaneVertexHeights` | src/app/main.js:133-139 | For the plane mesh with one height per vertex, vertex `i`'s y slot gets its own height and its x and z slots are untouched. |

## Left out

- DOM wiring of the keyboard (`addEventListener`, `removeEventListener`, `destroy`). The blur listener as written returns `onBlur` without calling it. `destroy` removes fresh closures and so removes nothing. `OnBlur` is modelled as an operation called directly.
- Strings.UpperCode: upper-cases only ASCII `a`–`z`. Characters whose `toUpperCase` differs outside ASCII, or expands to several characters (`ß`), are not modelled.
- Strings.UpperCode: character codes are Unicode scalar values. `charCodeAt` returns UTF-16 code units, which differ for characters outside the Basic Multilingual Plane.
- Keyboard.OnKeyChange: key codes are integers. JavaScript object keys are strings: a key code of `undefined` would become the property `"undefined"`, and NaN the property `"NaN"`. Neither is modelled.
- Everything that calls three.js or Ammo.js: renderer, camera, lights, geometry, materials, `btHeightfieldTerrainShape`, `stepSimulation`, motion-state sync. These are foreign libraries.
- `Ammo._malloc` and `Ammo.HEAPF32` become parameters: the block's byte address `base` and the float heap `heap`.
- `generateHeight`, the radius and mass in `generateObject`, and `createObjectMaterial`. They use `Math.random`, `Math.pow` and floating-point arithmetic. Heights are an arbitrary element type `T`.
- Spawned objects are modelled only by their count. What `generateObject` builds is three.js/Ammo.js state.
- Spawn.Step: time and delta are exact reals. Floating-point rounding of `time += delta` is not modelled. `clock.getDelta()` is a parameter.
- rStats instrumentation and `console.log` (output only).
- `src/utils/helpers.js`, `src/app/helpers/*`, `src/config.js` and `src/App.js`. These are timers, console output, asset loaders, scene construction, static configuration and WebGL detection.
