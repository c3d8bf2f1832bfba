# Utility: hex colour codec and scene-graph helpers

A Dafny model of the static helper class `Utility` of the avatar creator, a Unity
project. The model has two parts.

- **Hex codec** (`hex.dfy`, module `Hex`). `HexToDouble` parses a colour-style hex
  string into a C# `int`. `IntToHex` formats an `int` with the .NET `"X3"` format.
  Both are pure functions. The lemmas state the parser's exact acceptance rules,
  the formatter's output shape and the round trip between the two.
- **Scene-graph helpers** (`scene_graph.dfy`, `utility.dfy`, modules `SceneGraph`
  and `Utility`). A node is a `GameObject` class with the fields the helpers touch:
  name, renderer colour, layer, active flag, world position, parent, local rotation,
  local scale, and a `destroyed` flag. `ChangeColor`, `SetLayerRecursively` and
  `PermuteGameObject` are methods that assign those fields in place, node by node,
  as the engine does. Their postconditions say which fields change and which do not.

How the .NET calls are modelled:

- `HexToDouble(hex)` is `int.Parse(hex.Replace("#", ""), NumberStyles.HexNumber)`.
  `Replace` removes every `#`, wherever it stands. `HexNumber` allows leading and
  trailing white space (U+0009 to U+000D and U+0020) around the digits. .NET also
  accepts NUL characters at the very end. Digits may be upper or lower case, with
  any number of leading zeros. There is no sign and no `0x` prefix. The result is
  a `Result`:
  - `FormatError` when nothing but white space is left, or a non-hex character remains;
  - `OverflowError` when the value exceeds 0xFFFFFFFF (a format error is reported first);
  - otherwise the value, read as a 32-bit two's-complement `int`, so values from
    0x80000000 on come back negative.
- `IntToHex(n)` is `n.ToString("X3")`: the shortest upper-case hex spelling of the
  32-bit pattern of `n`, left-padded with `0` to three digits. Longer values keep
  all their digits. A negative `n` prints as its eight-digit two's-complement form.
- Subtrees: the engine's `GetComponentsInChildren<Transform>(true)` is a parameter,
  `subtree: seq<GameObject>`, with the root first. The list includes inactive nodes.

Behaviour that the code has and a quick reading might not expect:

- `HexToDouble` strips every `#`, not only a leading one.
- `IntToHex` gives at least three digits, not exactly three. So
  `HexToDouble(IntToHex(n)) == n` holds for every `int`, not only up to 0xFFF.
- A parsed value is not limited to 0xFFFFFF.

## Model

| member | source | states |
|---|---|---|
| `Hex.RemoveHashes` | avatar-creator/Assets/Scripts/Utility.cs:86 | the result of `Replace("#", "")` contains no `#` |
| `Hex.RemoveHashesKeeps` | avatar-creator/Assets/Scripts/Utility.cs:86 | every character other than `#` is kept, as often as it occurs |
| `Hex.TrimLeadingWhite` | avatar-creator/Assets/Scripts/Utility.cs:86 | `HexNumber` skips exactly the leading white space: a suffix, all dropped characters white, first kept one not |
| `Hex.TrimTrailingWhite` | avatar-creator/Assets/Scripts/Utility.cs:86 | skips exactly the trailing white space: a prefix, all dropped characters white, last kept one not |
| `Hex.TrimTrailingNuls` | avatar-creator/Assets/Scripts/Utility.cs:86 | trailing NUL characters are accepted and dropped, and nothing else |
| `Hex.NumberBodySlice` | avatar-creator/Assets/Scripts/Utility.cs:86 | the part parsed as digits is one slice of the input, with only white space and NULs outside it |
| `Hex.ToInt32` | avatar-creator/Assets/Scripts/Utility.cs:86 | the parsed unsigned value becomes the `int` with the same 32 bits; negative exactly from 0x80000000 on |
| `Hex.HexToDoubleDigits` | avatar-creator/Assets/Scripts/Utility.cs:84-87 | on hex digits alone, parsing succeeds iff the string is non-empty and its value is below 2^32, with the two's-complement value; empty is a format error, too large an overflow |
| `Hex.AtMostEightDigits` | avatar-creator/Assets/Scripts/Utility.cs:84-87 | one to eight hex digits in either case always parse to their base-16 value as an `int`, negative iff the value is at least 0x80000000 |
| `Hex.HashIgnored` | avatar-creator/Assets/Scripts/Utility.cs:86 | a `#` anywhere in the input does not change the result |
| `Hex.NoDigitsIsFormatError` | avatar-creator/Assets/Scripts/Utility.cs:86 | input made only of `#`, white space and NULs (the empty string included) is a format error |
| `Hex.StrayCharIsFormatError` | avatar-creator/Assets/Scripts/Utility.cs:86 | any character that is not a hex digit, `#`, white space or NUL makes the input a format error, wherever it stands |
| `Hex.CaseInsensitive` | avatar-creator/Assets/Scripts/Utility.cs:86 | upper-casing the input never changes the result |
| `Hex.MagentaValue` | avatar-creator/Assets/Scripts/Utility.cs:84-87 | `"FF00FF"` gives 16711935 |
| `Hex.HashPrefixExample` | avatar-creator/Assets/Scripts/Utility.cs:84-87 | `"#FF00FF"` gives 16711935 |
| `Hex.HashInsideExample` | avatar-creator/Assets/Scripts/Utility.cs:84-87 | `"FF#00FF"` gives 16711935 |
| `Hex.HexToDoubleNegativeExample` | avatar-creator/Assets/Scripts/Utility.cs:84-87 | `"ffffffff"` gives -1 |
| `Hex.ToUInt32` | avatar-creator/Assets/Scripts/Utility.cs:96 | `"X"` prints the 32-bit pattern of an `int`: below 2^32, congruent to it, and inverse to `ToInt32` |
| `Hex.HexDigits` | avatar-creator/Assets/Scripts/Utility.cs:96 | the digits are upper-case hex, at least one, with a leading `0` only for zero |
| `Hex.HexDigitsValue` | avatar-creator/Assets/Scripts/Utility.cs:96 | the digits spell exactly the value formatted |
| `Hex.HexDigitsOf32Bits` | avatar-creator/Assets/Scripts/Utility.cs:96 | a 32-bit pattern needs at most eight digits, and exactly eight from 0x10000000 on |
| `Hex.PadLeft` | avatar-creator/Assets/Scripts/Utility.cs:96 | the `3` of `"X3"`: pads on the left up to the width and never truncates a longer string |
| `Hex.IntToHexShape` | avatar-creator/Assets/Scripts/Utility.cs:94-97 | output is 3 to 8 upper-case hex digits, zero-padded only up to 3, whose value is the `int`'s 32-bit pattern; eight digits for negative numbers |
| `Hex.IntToHexPaddedExample` | avatar-creator/Assets/Scripts/Utility.cs:94-97 | 255 gives `"0FF"` |
| `Hex.IntToHexWideExample` | avatar-creator/Assets/Scripts/Utility.cs:94-97 | 0xFFFFFF gives `"FFFFFF"`, not truncated |
| `Hex.IntToHexNegativeExample` | avatar-creator/Assets/Scripts/Utility.cs:94-97 | -1 gives `"FFFFFFFF"` |
| `Hex.RoundTrip` | avatar-creator/Assets/Scripts/Utility.cs:84-97 | `HexToDouble(IntToHex(n)) == Ok(n)` for every `int` `n`, negative ones included |
| `Utility.Passes` | avatar-creator/Assets/Scripts/Utility.cs:64-69 | the `pass` flag ends true iff the node's name equals no entry of `exception` |
| `Utility.ChangeColor` | avatar-creator/Assets/Scripts/Utility.cs:57-76 | every subtree node (root and inactive ones included) with a renderer and a name not excluded gets the colour; excluded or renderer-less nodes keep theirs; no other field changes |
| `Utility.SetLayerRecursively` | avatar-creator/Assets/Scripts/Utility.cs:146-150 | every subtree node, `o` and inactive ones included, ends on `layer`; no other field changes |
| `Utility.PermuteGameObject` | avatar-creator/Assets/Scripts/Utility.cs:32-55 | rotation and scale always copied from the source; position, parent and name copied only under their flags, else kept; source destroyed iff `removeSourceGameObject`; a null argument rethrows with nothing written |
| `Utility.PermuteWithDefaults` | avatar-creator/Assets/Scripts/Utility.cs:32 | the two-argument call uses the C# defaults: no copy, position, parent, name, rotation and scale all taken from the source, and the source destroyed |
| `SceneGraph.GameObject.Instantiate` | avatar-creator/Assets/Scripts/Utility.cs:36-37 | the copy made when `instanciate` is set: same fields, no parent, name with the clone suffix |

## Left out

- `LoadGameObject` (lines 17-21): a wrapper over `AssetDatabase.LoadAssetAtPath` and `Instantiate`, both engine calls.
- `MakeSprite` (lines 109-139): camera creation, GPU render textures, a blocking pixel read-back and `Sprite.Create`. This is engine I/O with floating-point distances and colours. `SetLayerRecursively`, which it calls, is modelled.
- `ColorUtility.TryParseHtmlString` in `ChangeColor`: an engine call. The parsed colour is a parameter. Its failure path, which leaves the default colour, is not modelled.
- `Debug.LogError` in `PermuteGameObject`'s catch block: logging only. The rethrow is the `Rethrown` outcome.
- `Destroy` is deferred by the engine to the end of the frame. The model sets the `destroyed` flag at once.
- `Instantiate` copies the whole hierarchy and every component. The model copies the node's own fields only. The clone's rotation and scale are overwritten by `PermuteGameObject` anyway.
- Transform maths: a position is a world position that re-parenting keeps, and the local/world conversion is not computed. The engine's refusal of a parent that would make a cycle is not modelled.
- `PermuteGameObject`: the caller's `newGameObject` reference is not reassigned in C#. The model returns the target in `Permuted(target)` so the clone is observable. The `ref` on `sourceObject` has no effect and is not modelled.
- `PermuteGameObject`: engine faults other than a null argument (for example a destroyed object) are not modelled.
- `ChangeColor` and `SetLayerRecursively`: a null `element`, `o` or `exception` array throws in C#. Dafny references here are non-null, so that path is not modelled.
- Subtree enumeration: the list of descendants is a parameter. The model does not derive it from parent links.
- `SetLayerRecursively`: the layer is restricted to the engine's range 0 to 31 (type `Layer`). The engine's handling of other values is not modelled.
- `HexToDouble`: a null string throws `NullReferenceException` from `hex.Replace` before `int.Parse` runs. Dafny strings are never null, so that path is not modelled.
