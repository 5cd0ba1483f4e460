# Locale fallback list and string helpers of the Tizen web runtime

This project models two small pieces of the Crosswalk-for-Tizen web runtime
(`wrt`) and proves properties about them in Dafny.

1. **The locale manager** (`src/runtime/locale_manager.cc`). It keeps an ordered
   fallback list of language tags (`system_locales_`) and a sticky default
   locale (`default_locale_`). Rebuilding the list works like this:
   - it asks the host for the system language, e.g. `en_US.UTF-8`;
   - it turns that into a dash-separated tag (`en-US`);
   - it pushes the tag, plus its ASCII lower-case copy when that differs, then
     strips the last `-`-delimited subtag and repeats until no `-` is left;
   - it re-appends the default.

   Setting the default drops the old default if it is the last entry, then
   appends the new default if it is non-empty. The model is the class
   `Locale.LocaleManager` with the two fields as `seq<string>` and `string`.
   Its methods are proved against the specification functions `FallbackChain`
   (the list one rebuild produces) and `WithDefault` (the list after the
   default changes). The lemmas about those functions state the ordering facts.

2. **String helpers** (`src/common/string_utils.cc`): `StartsWith`, `EndsWith`
   and `ReplaceAll`. `ReplaceAll` is a method with the source's loop, proved
   equal to the recursive specification `ReplaceAllSpec`. That specification
   finds the leftmost occurrence, emits the text before it, emits the
   replacement and continues after the match. `std::string::find` is modelled
   by `FindFrom`, with `None` standing for `npos`.

Files: `Wrappers.dfy` (an `Option` type), `Sequences.dfy` (associativity of concatenation, used by both modules), `StringUtils.dfy` (module
`StringUtils`), `LocaleManager.dfy` (module `Locale`).

## Model

| member | source | states |
|---|---|---|
| `StringUtils.StartsWith` | src/common/string_utils.cc:22-25 | true exactly when `sub` is a prefix of `str`; false whenever `sub` is longer than `str`; true for an empty `sub` |
| `StringUtils.EndsWith` | src/common/string_utils.cc:27-30 | true exactly when `sub` is no longer than `str` and equals the same number of characters at the end of `str`; false whenever `sub` is longer |
| `StringUtils.EndsWithIsReversedStartsWith` | src/common/string_utils.cc:27-30 | comparing through reverse iterators: `EndsWith(str, sub)` is `StartsWith` on both strings reversed |
| `StringUtils.StartsWithConcat` | src/common/string_utils.cc:22-30 | `a + b` starts with `a` and ends with `b`; conversely, a string that starts (ends) with `sub` is `sub` followed by (preceded by) the rest of it |
| `StringUtils.FindFrom` | src/common/string_utils.cc:35-38 | `find(pat, start)`: a result is an occurrence at or after `start` with no occurrence between `start` and it; `npos` means no occurrence at or after `start` |
| `StringUtils.FindFromShift` | src/common/string_utils.cc:38 | searching from `k` is searching the suffix from `k` on, with positions shifted by `k` |
| `StringUtils.FindFromEmpty` | src/common/string_utils.cc:35-38 | an empty pattern is found at every start position up to the end, so the search never reports `npos` for it |
| `StringUtils.ReplaceAllSpec` | src/common/string_utils.cc:32-41 | an input shorter than `from` comes back unchanged; when `to` is as long as `from` the length is kept (each replacement swaps equal-length text) |
| `StringUtils.SpecAtMatch` | src/common/string_utils.cc:36-39 | at the leftmost match the result is the text before it, then `to`, then the result on the text after the match |
| `StringUtils.ReplaceStep` | src/common/string_utils.cc:36-39 | one loop pass: replacing the match found from the resume point extends the finished prefix and leaves the unprocessed rest after the match |
| `StringUtils.ReplaceAll` | src/common/string_utils.cc:32-41 | for a non-empty `from`, the loop that replaces and resumes after the inserted text returns exactly `ReplaceAllSpec` (leftmost, non-overlapping, left to right) |
| `StringUtils.ReplaceAllNoMatch` | src/common/string_utils.cc:34-40 | when `from` occurs nowhere in the input, the input comes back unchanged and no replacement happens |
| `StringUtils.ReplaceAllSameIsIdentity` | src/common/string_utils.cc:32-41 | replacing `from` by itself returns the input unchanged |
| `StringUtils.ReplaceAllLength` | src/common/string_utils.cc:36-39 | each replacement changes the length by the length of `to` minus the length of `from` |
| `StringUtils.ReplaceAllSkipsInsertedText` | src/common/string_utils.cc:36-39 | inserted text is not searched again: `"aa"` with `a -> aa` gives `"aaaa"`; matches do not overlap: `"aaa"` with `aa -> b` gives `"ba"` |
| `Locale.FirstIndexOf` | src/runtime/locale_manager.cc:22 | the cut point is the first `.`, or the whole string when there is none |
| `Locale.ReplaceChar` | src/runtime/locale_manager.cc:25 | every `from` character becomes `to`, every other character stays in place |
| `Locale.ToBCP47LangTag` | src/runtime/locale_manager.cc:18-27 | the tag is the input's prefix before the first `.` with every `_` turned into `-`; it contains no `_` and no `.` |
| `Locale.LowerChar` | src/runtime/locale_manager.cc:71 | ASCII upper-case letters map to the letter 32 code points later; every other character is unchanged |
| `Locale.ToLowerAscii` | src/runtime/locale_manager.cc:71 | `std::transform` with `tolower` keeps the length of the tag |
| `Locale.ToLowerAsciiAt` | src/runtime/locale_manager.cc:71 | lower-casing a tag is character by character |
| `Locale.LowerChangesIffUpper` | src/runtime/locale_manager.cc:70-74 | the lower-case copy differs from the tag exactly when the tag has an ASCII upper-case letter |
| `Locale.FindLastOf` | src/runtime/locale_manager.cc:75-76 | the position found holds the last `-` (none after it); `npos` only when there is no `-` |
| `Locale.Parent` | src/runtime/locale_manager.cc:75-79 | stripping the last subtag gives a strict prefix that ends just before the last `-`; there is none exactly when the tag has no `-` |
| `Locale.FallbackChain` | src/runtime/locale_manager.cc:64-80 | the list one rebuild produces is non-empty and starts with the full converted tag |
| `Locale.Stems` | src/runtime/locale_manager.cc:65-80 | the original-case tags visited start with the full tag |
| `Locale.ChainIsStemsWithLowerCopies` | src/runtime/locale_manager.cc:64-80 | the rebuilt list is the visited original-case tags, each followed by its lower-case copy when that differs |
| `Locale.StemCount` | src/runtime/locale_manager.cc:75-79 | the number of original-case tags pushed is the number of `-` in the tag plus one (so the loop ends) |
| `Locale.StemsShrink` | src/runtime/locale_manager.cc:75-79 | each later original-case tag is the previous one cut at its last `-`, hence a strict prefix of it |
| `Locale.ChainShape` | src/runtime/locale_manager.cc:64-80 | the list begins with the full converted tag, holds no longer tag, and no entry is immediately followed by an identical copy |
| `Locale.LowerCopyFollowsIffUpper` | src/runtime/locale_manager.cc:67-74 | a lower-case copy comes right after the full tag exactly when the tag has an ASCII upper-case letter |
| `Locale.ChainEnd` | src/runtime/locale_manager.cc:75-83 | the list built by the loop ends with the last stripped tag (which has no `-`) or its lower-case copy |
| `Locale.ChainStep` | src/runtime/locale_manager.cc:67-79 | one loop pass: after pushing the tag and its differing lower-case copy, the list plus the chain of the parent (or nothing, when there is no `-`) is still the chain of the full tag |
| `Locale.WithDefault` | src/runtime/locale_manager.cc:39-48 | a non-empty new default ends the list; clearing the default leaves a prefix of the old list; the length changes by at most one |
| `Locale.WithDefaultShape` | src/runtime/locale_manager.cc:39-48 | setting the default removes at most the last entry, and does so exactly when it equals the non-empty previous default; the rest keeps its order; a non-empty new default ends the list |
| `Locale.WithDefaultIdempotent` | src/runtime/locale_manager.cc:39-48 | setting the same default twice equals setting it once |
| `Locale.WithDefaultClearThenRestore` | src/runtime/locale_manager.cc:39-48 | when the default is last, clearing it and setting it again gives back the same list |
| `Locale.LocaleManager.constructor` | src/runtime/locale_manager.cc:32-34 | a new manager has no default and holds the chain of the host's language, or an empty list when the host gives nothing usable |
| `Locale.LocaleManager.SetDefaultLocale` | src/runtime/locale_manager.cc:39-48 | the new default is stored, the list becomes `WithDefault` of the old list and old default, and a non-empty default is last |
| `Locale.LocaleManager.UpdateSystemLocale` | src/runtime/locale_manager.cc:50-84 | on a failed host query or an empty tag nothing changes; otherwise the list is the fallback chain of the converted tag followed by the non-empty default, which is then last; the default is never changed |
| `Locale.ExampleChain` | src/runtime/locale_manager.cc:18-80 | `en_US.UTF-8` converts to `en-US`, whose chain is `en-US, en-us, en` |
| `Locale.WorkedExample` | src/runtime/locale_manager.cc:32-84 | a manager built from `en_US.UTF-8` holds `en-US, en-us, en`; after setting the default `fr-FR` it holds `en-US, en-us, en, fr-FR` |

## Left out

- `GenerateUUID` (src/common/string_utils.cc:14-20) is not modelled: it calls the foreign libuuid generator and returns random text.
- The host query `runtime_info_get_value_string` is an input `Option<string>` to `UpdateSystemLocale` and the constructor. `None` covers both an error code and a NULL string.
- Logging (`LoggerD`, `LoggerE`) has no behaviour to model.
- `StringUtils.ReplaceAll` requires a non-empty `from`. With an empty `from`, `find` always succeeds (`StringUtils.FindFromEmpty`), so the loop's exit test never passes. With an empty `to` the source loops forever; with a non-empty `to` it inserts `to` on every pass until an exception (`std::length_error`, `std::bad_alloc`, or `std::out_of_range` once `int pos` wraps) ends the call. It never returns a result, and the model does not capture this.
- `StringUtils.ReplaceAll` keeps positions as unbounded naturals. The source narrows `find`'s `size_t` result into an `int`, which only matters for strings longer than `INT_MAX`.
- `Locale.LowerChar` is ASCII `A`-`Z` to `a`-`z` only. The source calls `::tolower`, whose result depends on the C locale in effect.
- Strings are sequences of `char`, while the source's `std::string` holds bytes; each byte reads as a `char` below 256, so no behaviour is lost. The one exception is `Locale.LowerChar` on a byte of 0x80 or more: a signed `char` reaches `::tolower` (src/runtime/locale_manager.cc:71) as a negative value, which is undefined behaviour in C++, while the model leaves the character unchanged.
- The `std::string` operations the source calls (`find`, `find_first_of`, `find_last_of`, `substr`, `replace`, `std::transform`, `std::equal`) are modelled as functions over `seq<char>`, not as loops of their own.
- The script-context module broker (`extensions/renderer/xwalk_module_system.*`) is outside this model: it is V8 binding code (accessors, persistent handles).
- The extension renderer controller (`extensions/renderer/xwalk_extension_renderer_controller.cc`) is not part of this model. It is a process-wide singleton with engine context hooks and IPC.
