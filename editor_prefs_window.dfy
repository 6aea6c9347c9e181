/**
 * The data logic of the EditorPrefs viewer window: turning the raw values of
 * Unity's preference registry key into rows, keeping them sorted by key, and
 * choosing the rows a search text lets through.
 *
 * The registry itself is an input: the sequence of raw records in the order
 * `GetValueNames` lists them. UTF-8 decoding of byte payloads is the library
 * function `decode`, passed in as a parameter.
 */
module EditorPrefs {
  import opened Wrappers
  import opened Strings
  import opened Sequences
  import opened KeyValue
  import opened Ordering

  newtype byte = x: int | 0 <= x < 256

  /** What `GetValue` returns: a `byte[]`, or any other object, already turned into text by its `ToString()`. */
  datatype Payload = Bytes(data: seq<byte>) | Other(text: string)

  /** One value of the registry key: its value name and its payload. */
  datatype RawRecord = RawRecord(name: string, payload: Payload)

  // ---------------------------------------------------------------------------
  // Normalising one raw record
  // ---------------------------------------------------------------------------

  /** `valueName.Split(new[] { "_h" }, StringSplitOptions.None)[0]`. */
  function KeyOf(name: string): (key: string)
    ensures |key| <= |name| && name[..|key|] == key
  {
    KeyOfIsPrefix(name);
    Split(name)[0]
  }

  /** The first piece of a split is a prefix of the whole name. */
  lemma KeyOfIsPrefix(name: string)
    ensures |Split(name)[0]| <= |name| && name[..|Split(name)[0]|] == Split(name)[0]
  {
    match IndexOf(name, HashMarker)
    case None =>
    case Some(i) =>
      assert Split(name)[0] == name[..i];
  }

  /**
   * The key is the raw name cut just before the first `"_h"`, or the whole
   * name when there is none; either way it is a prefix of the name and holds
   * no `"_h"` of its own.
   */
  lemma KeyOfCutsAtFirstMarker(name: string)
    ensures !Contains(name, HashMarker) ==> KeyOf(name) == name
    ensures Contains(name, HashMarker) ==>
      exists i :: OccursAt(name, HashMarker, i) && KeyOf(name) == name[..i] &&
        forall j :: 0 <= j < i ==> !OccursAt(name, HashMarker, j)
    ensures |KeyOf(name)| <= |name| && name[..|KeyOf(name)|] == KeyOf(name)
    ensures !Contains(KeyOf(name), HashMarker)
  {
    IndexOfContains(name, HashMarker);
    match IndexOf(name, HashMarker)
    case None =>
    case Some(i) =>
      assert KeyOf(name) == name[..i];
      FirstPieceHasNoMarker(name, i);
  }

  /** Whatever follows the first `"_h"` (Unity's hash of the key) is cut off exactly. */
  lemma KeyOfCutsAtHashSuffix(key: string, suffix: string)
    requires !Contains(key, HashMarker)
    ensures KeyOf(key + HashMarker + suffix) == key
  {
    var name := key + HashMarker + suffix;
    var n := |key|;
    assert name[n..n + |HashMarker|] == HashMarker;
    assert OccursAt(name, HashMarker, n);
    forall j | 0 <= j < n ensures !OccursAt(name, HashMarker, j) {
      if j + 1 < n {
        if OccursAt(name, HashMarker, j) {
          assert key[j..j + |HashMarker|] == name[j..j + |HashMarker|];
          OccursAtContains(key, HashMarker, j);
        }
      } else {
        assert name[j..j + |HashMarker|][1] == name[n] == '_';
      }
    }
    assert IndexOf(name, HashMarker) == Some(n);
    assert name[..n] == key;
  }

  /** The text a payload is shown as: UTF-8 decoding for bytes, `ToString()` for anything else. */
  function ValueOf(payload: Payload, decode: seq<byte> -> string): string {
    match payload
    case Bytes(data) => decode(data)
    case Other(text) => text
  }

  /** The row built for one raw record. */
  function Normalize(record: RawRecord, decode: seq<byte> -> string): KeyValueData {
    KeyValueData(KeyOf(record.name), ValueOf(record.payload, decode))
  }

  /** The rows built for the whole registry key, one per value name, in enumeration order. */
  function NormalizeAll(store: seq<RawRecord>, decode: seq<byte> -> string): seq<KeyValueData> {
    seq(|store|, i requires 0 <= i < |store| => Normalize(store[i], decode))
  }

  /**
   * `GetEditorPrefsKeyValuePairAll`: walks the value names in order and yields
   * one row per name, keyed by the name cut at `"_h"`, valued by the decoded
   * bytes or the payload's text.
   */
  method GetEditorPrefsKeyValuePairAll(store: seq<RawRecord>, decode: seq<byte> -> string)
    returns (entries: seq<KeyValueData>)
    ensures |entries| == |store|
    ensures forall i :: 0 <= i < |store| ==> entries[i] == Normalize(store[i], decode)
  {
    entries := [];
    for n := 0 to |store|
      invariant |entries| == n
      invariant forall i :: 0 <= i < n ==> entries[i] == Normalize(store[i], decode)
    {
      var valueName := store[n].name;
      var key := Split(valueName)[0];
      match store[n].payload
      case Bytes(byteValue) =>
        entries := entries + [KeyValueData(key, decode(byteValue))];
      case Other(text) =>
        entries := entries + [KeyValueData(key, text)];
    }
  }

  // ---------------------------------------------------------------------------
  // The visible rows
  // ---------------------------------------------------------------------------

  /** `x => !isSearch || x.IsFilter(searchText)`, with `isSearch` the search text not being blank. */
  function Shown(searchText: string): KeyValueData -> bool {
    var isSearch := !IsNullOrWhiteSpace(searchText);
    (x: KeyValueData) => !isSearch || x.IsFilter(searchText)
  }

  /** `m_list.Where(x => !isSearch || x.IsFilter(m_searchText))`. */
  function Visible(list: seq<KeyValueData>, searchText: string): seq<KeyValueData> {
    Where(list, Shown(searchText))
  }

  /** An empty or white-space search text shows the whole list, unchanged. */
  lemma VisibleBlankIsAll(list: seq<KeyValueData>, searchText: string)
    requires IsNullOrWhiteSpace(searchText)
    ensures Visible(list, searchText) == list
  {
    WhereAllPass(list, Shown(searchText));
  }

  /**
   * Any other search text shows, in list order, exactly the rows it matches:
   * every shown row matches, every matching row is shown as often as the list
   * holds it, and nothing else is.
   */
  lemma VisibleSearchIsMatching(list: seq<KeyValueData>, searchText: string)
    requires !IsNullOrWhiteSpace(searchText)
    ensures IsSubsequence(Visible(list, searchText), list)
    ensures forall i :: 0 <= i < |Visible(list, searchText)| ==> Visible(list, searchText)[i].IsFilter(searchText)
    ensures forall i :: 0 <= i < |list| && list[i].IsFilter(searchText) ==> list[i] in Visible(list, searchText)
    ensures forall x :: multiset(Visible(list, searchText))[x] ==
                        (if x.IsFilter(searchText) then multiset(list)[x] else 0)
  {
    WhereIsSubsequence(list, Shown(searchText));
    WhereCounts(list, Shown(searchText));
  }

  /** A search text containing a non-blank text is itself not blank. */
  lemma ContainsNonBlank(longer: string, shorter: string)
    requires Contains(longer, shorter)
    requires !IsNullOrWhiteSpace(shorter)
    ensures !IsNullOrWhiteSpace(longer)
  {
    ContainsIff(longer, shorter);
    var i :| OccursAt(longer, shorter, i);
    var k :| 0 <= k < |shorter| && !IsWhiteSpace(shorter[k]);
    assert longer[i + k] == longer[i..i + |shorter|][k] == shorter[k];
  }

  /**
   * Extending the search text (typing more characters around what is there)
   * shows a subsequence of what was shown before.
   */
  lemma VisibleNarrows(list: seq<KeyValueData>, longer: string, shorter: string)
    requires Contains(longer, shorter)
    ensures IsSubsequence(Visible(list, longer), Visible(list, shorter))
  {
    if IsNullOrWhiteSpace(shorter) {
      VisibleBlankIsAll(list, shorter);
      WhereIsSubsequence(list, Shown(longer));
    } else {
      ContainsNonBlank(longer, shorter);
      forall i | 0 <= i < |list| && Shown(longer)(list[i]) ensures Shown(shorter)(list[i]) {
        IsFilterNarrows(list[i], longer, shorter);
      }
      WhereNarrows(list, Shown(longer), Shown(shorter));
    }
  }

  // ---------------------------------------------------------------------------
  // The window
  // ---------------------------------------------------------------------------

  /** The window's data: the sorted rows `m_list` and the search text `m_searchText`. */
  class EditorPrefsWindow {
    var list: seq<KeyValueData>
    var searchText: string

    /** A new window: no rows yet, an empty search text. */
    constructor ()
      ensures list == [] && searchText == ""
    {
      list := [];
      searchText := "";
    }

    /**
     * `Refresh`: re-reads the registry key and replaces the rows with them
     * sorted by key. The new list is sorted, is a permutation of the rows read
     * (duplicate keys included), and keeps rows of equal key in read order.
     */
    method Refresh(store: seq<RawRecord>, decode: seq<byte> -> string)
      modifies this`list
      ensures list == OrderByKey(NormalizeAll(store, decode))
      ensures SortedByKey(list)
      ensures multiset(list) == multiset(NormalizeAll(store, decode))
      ensures forall k :: WithKey(list, k) == WithKey(NormalizeAll(store, decode), k)
      ensures searchText == old(searchText)
    {
      var entries := GetEditorPrefsKeyValuePairAll(store, decode);
      assert entries == NormalizeAll(store, decode);
      list := OrderByKey(entries);
      forall k ensures WithKey(list, k) == WithKey(entries, k) {
        OrderByKeyStable(entries, k);
      }
    }

    /**
     * The data side of `OnGUI`: refreshes when the toolbar button was
     * pressed, takes the text now in the search field, and returns the rows to
     * draw. Without a refresh the rows are left as they were.
     */
    method OnGUI(refreshPressed: bool, store: seq<RawRecord>, decode: seq<byte> -> string, typed: string)
      returns (visible: seq<KeyValueData>)
      modifies this
      ensures list == if refreshPressed then OrderByKey(NormalizeAll(store, decode)) else old(list)
      ensures searchText == typed
      ensures visible == Visible(list, searchText)
    {
      if refreshPressed {
        Refresh(store, decode);
      }
      searchText := typed;
      visible := Where(list, Shown(searchText));
    }
  }
}
