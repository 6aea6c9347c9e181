# UniEditorPrefsWindow — a verified model of the EditorPrefs viewer's data logic

UniEditorPrefsWindow is a Unity editor window that lists every key and value
Unity's `EditorPrefs` keeps in the Windows registry, with a search box that
narrows the list. This project models the data side of that window in Dafny:

- **Reading the registry key.** Each raw value name becomes a key by cutting it
  at the first `"_h"`, the separator in front of the hash Unity appends to a
  name. Each payload becomes text: a `byte[]` is UTF-8-decoded and any other
  object goes through `ToString()`. One `KeyValueData` row is made per value
  name, in enumeration order (`GetEditorPrefsKeyValuePairAll`).
- **The rows.** `KeyValueData` is an immutable key/value pair. `IsFilter` is a
  case-insensitive substring test on the key or the value. `Deconstruct` gives
  the pair back.
- **`Refresh`.** It replaces the window's list with the rows sorted by key
  (`OrderBy`, a stable sort).
- **The visible rows in `OnGUI`.** An empty or white-space search text shows
  every row. Any other text shows only the rows `IsFilter` accepts, in list
  order.

Files:

- `strings.dfy` (module `Strings`): ordinal `Contains`, `Split` on `"_h"` and
  its inverse `Join`, ASCII `ToLower`, and `IsNullOrWhiteSpace`. `IndexOf`
  there is the first-occurrence scan that `Split` performs; the source never
  calls `IndexOf` itself.
- `sequences.dfy` (module `Sequences`): LINQ `Where`, with the facts that it
  keeps an order-preserving subsequence holding exactly the passing elements.
- `key_value.dfy` (module `KeyValue`): the `KeyValueData` datatype, `IsFilter`
  and `Deconstruct`.
- `ordering.dfy` (module `Ordering`): ordinal key comparison, which is a total
  order, and `OrderByKey`. `OrderByKey` returns a sorted permutation of its
  input, and it is stable.
- `editor_prefs_window.dfy` (module `EditorPrefs`): raw records and their
  normalisation, the derivation loop, the visible-row computation, and the
  class `EditorPrefsWindow`. The class holds `m_list` as `list` and
  `m_searchText` as `searchText`.
- `scenarios.dfy` (module `Scenarios`): worked cases. These are a hashed value
  name, sorting and searching three sample rows, a blank search, and two
  redraws in a row.
- `wrappers.dfy` (module `Wrappers`): `Option`.

The registry is an input: the sequence of `(name, payload)` records in the
order `GetValueNames` returns them. The payload is `Bytes(seq<byte>)` or
`Other(text)`, where `text` is what `ToString()` produced. UTF-8 decoding is
passed in as the function parameter `decode`.

## Model

| member | source | states |
|---|---|---|
| `Strings.Contains` | Editor/EditorPrefsWindow.cs:37-38 | ordinal `String.Contains`: `t` starts at the first position of `s`, or occurs somewhere in the rest of `s` |
| `Strings.OccursAtShift` | Editor/EditorPrefsWindow.cs:137 | past the first position, the occurrences in a string are the occurrences in its tail, one position later |
| `Strings.ContainsIff` | Editor/EditorPrefsWindow.cs:37-38 | `Contains(s, t)` holds exactly when `t` occurs as a contiguous block of `s` at some position |
| `Strings.ContainsTransitive` | Editor/EditorPrefsWindow.cs:37-38 | a block of a block of `a` is a block of `a` |
| `Strings.IndexOf` | Editor/EditorPrefsWindow.cs:137 | the result is an occurrence with none before it, or `None` when there is no occurrence at all |
| `Strings.IndexOfContains` | Editor/EditorPrefsWindow.cs:137 | `IndexOf` finds a position exactly when `Contains` holds |
| `Strings.Split` | Editor/EditorPrefsWindow.cs:137 | splitting on `"_h"` always yields at least one piece, so `[0]` always exists |
| `Strings.JoinSplit` | Editor/EditorPrefsWindow.cs:137 | joining the pieces of `Split(s)` with `"_h"` gives back `s`: splitting loses nothing |
| `Strings.SplitPiecesHaveNoMarker` | Editor/EditorPrefsWindow.cs:137 | no piece produced by `Split` contains `"_h"` |
| `Strings.SplitPieceHasNoMarker` | Editor/EditorPrefsWindow.cs:137 | piece `k` of `Split(s)` does not contain `"_h"`, for every `k` |
| `Strings.LowerChar` | Editor/EditorPrefsWindow.cs:35-37 | lowers one character: `A`-`Z` map to `a`-`z`, every other character is kept |
| `Strings.Lower` | Editor/EditorPrefsWindow.cs:35-37 | `ToLower()`: the string with every character lowered, same length |
| `Strings.IsWhiteSpace` | Editor/EditorPrefsWindow.cs:98 | `Char.IsWhiteSpace`: U+0009 to U+000D, U+0020, U+0085, U+00A0, U+1680, U+2000 to U+200A, U+2028, U+2029, U+202F, U+205F, U+3000 |
| `Strings.IsNullOrWhiteSpace` | Editor/EditorPrefsWindow.cs:98 | a search text is blank when every character of it is white space, which includes the empty text |
| `Strings.LowerIdempotent` | Editor/EditorPrefsWindow.cs:35 | lowering a lowered string changes nothing |
| `Strings.ContainsLower` | Editor/EditorPrefsWindow.cs:35-38 | if `t` occurs in `s`, the lowered `t` occurs in the lowered `s` |
| `EditorPrefs.KeyOf` | Editor/EditorPrefsWindow.cs:137 | the key is piece 0 of the name split on `"_h"`, and it is always a prefix of the name |
| `EditorPrefs.KeyOfIsPrefix` | Editor/EditorPrefsWindow.cs:137 | the first piece of a split name is a prefix of the name |
| `EditorPrefs.ValueOf` | Editor/EditorPrefsWindow.cs:139-146 | a byte payload is shown as `decode(bytes)`; any other payload is shown as its text |
| `EditorPrefs.Normalize` | Editor/EditorPrefsWindow.cs:136-146 | the row for one record: key from the name, value from the payload |
| `EditorPrefs.NormalizeAll` | Editor/EditorPrefsWindow.cs:134-147 | one row per record, in record order |
| `EditorPrefs.KeyOfCutsAtFirstMarker` | Editor/EditorPrefsWindow.cs:137 | a name without `"_h"` is its own key; otherwise the key is the name up to the first `"_h"`; the key is always a prefix of the name and never contains `"_h"` |
| `EditorPrefs.KeyOfCutsAtHashSuffix` | Editor/EditorPrefsWindow.cs:137 | for a key without `"_h"`, the name `key + "_h" + hash` is listed under `key`, whatever the hash |
| `EditorPrefs.GetEditorPrefsKeyValuePairAll` | Editor/EditorPrefsWindow.cs:129-149 | one row per value name, in enumeration order; row `i` is the normalisation of record `i`: the key cut from its name, and `decode(bytes)` for a byte payload or the payload's text otherwise |
| `KeyValue.KeyValueData.IsFilter` | Editor/EditorPrefsWindow.cs:33-39 | the lowered search text occurs in the lowered key or in the lowered value |
| `KeyValue.KeyValueData.Deconstruct` | Editor/EditorPrefsWindow.cs:41 | returns `(Key, Value)`; building a row from the pair gives back the same row |
| `KeyValue.IsFilterOccurs` | Editor/EditorPrefsWindow.cs:33-39 | a row matches exactly when the lowered search text occurs somewhere in the lowered key or in the lowered value |
| `KeyValue.IsFilterIgnoresCase` | Editor/EditorPrefsWindow.cs:35-38 | search texts that lower to the same string select the same rows |
| `KeyValue.IsFilterLowered` | Editor/EditorPrefsWindow.cs:35 | `IsFilter(s)` equals `IsFilter(lower(s))` |
| `KeyValue.IsFilterEmpty` | Editor/EditorPrefsWindow.cs:33-39 | the empty search text matches every row |
| `KeyValue.IsFilterNarrows` | Editor/EditorPrefsWindow.cs:33-39 | a row matching a search text also matches every block of that text |
| `KeyValue.DeconstructRoundTrip` | Editor/EditorPrefsWindow.cs:27-41 | `Deconstruct` returns the key and value the constructor stored, and rebuilding a row from its deconstruction gives the same row |
| `Ordering.KeyLessEq` | Editor/EditorPrefsWindow.cs:68 | ordinal key order: compare character by character; the empty key, and so every proper prefix, comes first |
| `Ordering.SortedByKey` | Editor/EditorPrefsWindow.cs:68 | each row's key is at or after the key of the row before it |
| `Ordering.KeyLessEqReflexive` | Editor/EditorPrefsWindow.cs:68 | every key is ordered at or before itself |
| `Ordering.KeyLessEqAntisymmetric` | Editor/EditorPrefsWindow.cs:68 | two keys each at or before the other are equal |
| `Ordering.KeyLessEqTransitive` | Editor/EditorPrefsWindow.cs:68 | the key order is transitive |
| `Ordering.KeyLessEqTotal` | Editor/EditorPrefsWindow.cs:68 | any two keys are comparable |
| `Ordering.SortedByKeyPairwise` | Editor/EditorPrefsWindow.cs:68 | in a list sorted by key, every key is at or before every later key, not just the next one |
| `Ordering.InsertByKey` | Editor/EditorPrefsWindow.cs:68 | inserting a row adds exactly that row and keeps a sorted list sorted |
| `Ordering.OrderByKey` | Editor/EditorPrefsWindow.cs:68 | the result is sorted by key and is a permutation of the input, so rows with duplicate keys are all kept |
| `Ordering.InsertByKeyStable` | Editor/EditorPrefsWindow.cs:68 | an inserted row goes in front of the rows that already carry its key |
| `Ordering.OrderByKeyStable` | Editor/EditorPrefsWindow.cs:68 | for every key, the rows carrying it appear in the same order before and after sorting |
| `Sequences.Where` | Editor/EditorPrefsWindow.cs:99 | every kept element is in the source and passes; every passing element of the source is kept |
| `Sequences.WhereIsSubsequence` | Editor/EditorPrefsWindow.cs:99 | `Where` returns an order-preserving subsequence of its source |
| `Sequences.WhereCounts` | Editor/EditorPrefsWindow.cs:99 | each passing element is kept exactly as often as the source holds it; failing elements do not appear |
| `Sequences.WhereAllPass` | Editor/EditorPrefsWindow.cs:99 | when every element passes, `Where` returns its source unchanged |
| `Sequences.WhereAppend` | Editor/EditorPrefsWindow.cs:99 | `Where` distributes over concatenation |
| `Sequences.WhereNarrows` | Editor/EditorPrefsWindow.cs:99 | filtering with a stronger test keeps a subsequence of what the weaker test keeps |
| `EditorPrefs.Shown` | Editor/EditorPrefsWindow.cs:98-99 | the `Where` test: a row is shown when the search text is blank, or when the row passes `IsFilter` for that text |
| `EditorPrefs.Visible` | Editor/EditorPrefsWindow.cs:98-99 | the rows of the list that pass `Shown`, in list order |
| `EditorPrefs.VisibleBlankIsAll` | Editor/EditorPrefsWindow.cs:98-99 | an empty or white-space-only search text shows the list exactly |
| `EditorPrefs.VisibleSearchIsMatching` | Editor/EditorPrefsWindow.cs:98-99 | any other search text shows an order-preserving subsequence of the list; every shown row matches; every matching row is shown as often as the list holds it; nothing else is shown |
| `EditorPrefs.ContainsNonBlank` | Editor/EditorPrefsWindow.cs:98 | a text containing a non-blank text is itself non-blank |
| `EditorPrefs.VisibleNarrows` | Editor/EditorPrefsWindow.cs:88-99 | a search text that contains another shows a subsequence of what the other shows, so typing more can only hide rows |
| `EditorPrefs.EditorPrefsWindow.constructor` | Editor/EditorPrefsWindow.cs:47-49 | a new window has an empty search text and no rows |
| `EditorPrefs.EditorPrefsWindow.Refresh` | Editor/EditorPrefsWindow.cs:65-71 | the list becomes the rows read, sorted by key: sorted, a permutation of the rows read, stable for equal keys; the search text is untouched |
| `EditorPrefs.EditorPrefsWindow.OnGUI` | Editor/EditorPrefsWindow.cs:76-112 | the list is refreshed only if the button was pressed and is otherwise unchanged; the search text becomes the typed text; the rows returned are the visible rows of the list for that text |
| `Scenarios.HashedNameKey` | Editor/EditorPrefsWindow.cs:137 | `"myFloat_h1234567890"` is listed under `"myFloat"` |
| `Scenarios.SortSample` | Editor/EditorPrefsWindow.cs:68 | `Volume`, `volumeMax`, `Brightness` sort to `Brightness`, `Volume`, `volumeMax` |
| `Scenarios.SearchIgnoresCase` | Editor/EditorPrefsWindow.cs:98-99 | searching `"VOL"` in that list shows `Volume` and `volumeMax` in that order and hides `Brightness` |
| `Scenarios.SearchMatchesValue` | Editor/EditorPrefsWindow.cs:98-99 | searching `"0.8"` shows only the row whose value is `0.8` |
| `Scenarios.SortThenSearch` | Editor/EditorPrefsWindow.cs:65-99 | refreshing those three rows and then searching `"VOL"` shows `Volume` then `volumeMax` |
| `Scenarios.SpacesShowEverything` | Editor/EditorPrefsWindow.cs:98 | a search text of three spaces and the empty search text both show the whole list |
| `Scenarios.RedrawTwice` | Editor/EditorPrefsWindow.cs:98-99 | two redraws with the same search text and no refresh return the same rows and leave the list unchanged |

## Left out

- Registry access (`Registry.CurrentUser.OpenSubKey`, `GetValueNames`, `GetValue`, and the `using` disposal, lines 131-136) is Windows I/O. The registry contents are an input sequence of raw records instead.
- A missing registry key is not modelled. The source does not handle it: `OpenSubKey` returns null and line 134 throws. Every input sequence stands for a key that exists.
- UTF-8 decoding (`Encoding.UTF8.GetString`) is a library call, passed in as `decode`. Its replacement of invalid sequences and its round trip on valid UTF-8 are not modelled.
- `ToString()` on non-byte payloads is a library call. The `Other` payload already carries its text.
- Lowering covers ASCII letters only. `ToLower()` in the source follows the current culture and all of Unicode.
- The key order is ordinal, one `char` at a time. `OrderBy` in the source uses the culture-sensitive default string comparer. Also, .NET compares UTF-16 code units, while a Dafny `char` is a Unicode scalar value.
- `IsNullOrWhiteSpace` is modelled without its null case. Dafny strings are never null, `m_searchText` starts as `string.Empty`, and the text field never returns null.
- `m_list` is a `seq` field that `Refresh` replaces. The source's array is never changed in place, only replaced by a new one.
- `EditorPrefs.EditorPrefsWindow.constructor`: starts with an empty list. In the source `m_list` is null until `OnEnable` (lines 57-60) calls `Refresh`, and Unity always calls `OnEnable` before `OnGUI`.
- Deferred execution of the `IEnumerable` that `GetEditorPrefsKeyValuePairAll` yields and of the `Where` query is not modelled. Both are materialised sequences here, which gives the same rows in the same order.
- UI plumbing is not modelled: the toolbar, drawing the text fields and rows, `ScrollViewScope`, `m_scrollPosition`, `Repaint`, `OnEnable`, and the `MenuItem`/`Open`/`GetWindow` entry point. These are Unity Editor framework calls with no logic beyond calling `Refresh`.
