/**
 * Worked cases of the viewer's behaviour, derived from the general contracts:
 * a hashed value name, a case-insensitive search over a sorted list, a search
 * by value, a blank search, and two redraws in a row.
 */
module Scenarios {
  import opened Strings
  import opened Sequences
  import opened KeyValue
  import opened Ordering
  import opened EditorPrefs

  /** A string without the character `c` does not contain any text that has it. */
  lemma {:induction false} NotContainsMissingChar(s: string, t: string, c: char)
    requires c in t
    requires forall k :: 0 <= k < |s| ==> s[k] != c
    ensures !Contains(s, t)
    decreases |s|
  {
    if |s| > 0 {
      NotContainsMissingChar(s[1..], t, c);
    }
  }

  /** `"myFloat_h1234567890"` is listed under the key `"myFloat"`. */
  lemma HashedNameKey()
    ensures KeyOf("myFloat" + "_h" + "1234567890") == "myFloat"
  {
    NotContainsMissingChar("myFloat", HashMarker, '_');
    KeyOfCutsAtHashSuffix("myFloat", "1234567890");
  }

  const Brightness := KeyValueData("Brightness", "50")
  const Volume := KeyValueData("Volume", "0.8")
  const VolumeMax := KeyValueData("volumeMax", "1.0")

  lemma CompareSampleKeys()
    ensures KeyLessEq(Volume.key, VolumeMax.key)
    ensures !KeyLessEq(Volume.key, Brightness.key) && !KeyLessEq(VolumeMax.key, Brightness.key)
  {
    assert Volume.key[0] == 'V' && VolumeMax.key[0] == 'v' && Brightness.key[0] == 'B';
  }

  lemma InsertSampleTail()
    ensures OrderByKey([VolumeMax, Brightness]) == [Brightness, VolumeMax]
  {
    CompareSampleKeys();
    assert [VolumeMax, Brightness][1..] == [Brightness] && [Brightness][1..] == [];
    assert OrderByKey([Brightness]) == [Brightness];
    assert InsertByKey(VolumeMax, [Brightness]) == [Brightness] + InsertByKey(VolumeMax, []);
  }

  lemma InsertSampleHead()
    ensures InsertByKey(Volume, [Brightness, VolumeMax]) == [Brightness, Volume, VolumeMax]
  {
    CompareSampleKeys();
    assert [Brightness, VolumeMax][1..] == [VolumeMax];
    assert InsertByKey(Volume, [VolumeMax]) == [Volume, VolumeMax];
  }

  /** Ordinal order puts upper-case initials before lower-case ones: `"Volume"` before `"volumeMax"`. */
  lemma SortSample()
    ensures OrderByKey([Volume, VolumeMax, Brightness]) == [Brightness, Volume, VolumeMax]
  {
    assert [Volume, VolumeMax, Brightness][1..] == [VolumeMax, Brightness];
    InsertSampleTail();
    InsertSampleHead();
  }

  /** `Where` over three rows, one row at a time. */
  lemma WhereThree(a: KeyValueData, b: KeyValueData, c: KeyValueData, p: KeyValueData -> bool)
    ensures Where([a, b, c], p) == (if p(a) then [a] else []) + (if p(b) then [b] else []) + (if p(c) then [c] else [])
  {
    assert [a, b, c][1..] == [b, c] && [b, c][1..] == [c] && [c][1..] == [];
    assert Where([c], p) == (if p(c) then [c] else []);
    assert Where([b, c], p) == (if p(b) then [b] else []) + Where([c], p);
  }

  lemma LowerSamples()
    ensures Lower("VOL") == "vol" && Lower("0.8") == "0.8"
    ensures Lower(Brightness.key) == "brightness" && Lower(Brightness.value) == "50"
    ensures Lower(Volume.key) == "volume" && Lower(Volume.value) == "0.8"
    ensures Lower(VolumeMax.key) == "volumemax" && Lower(VolumeMax.value) == "1.0"
  {
  }

  /**
   * A row is hidden when its lowered key lacks one character of the lowered
   * search text and its lowered value lacks one (possibly another).
   */
  lemma HiddenByMissingChars(d: KeyValueData, searchText: string, inKey: char, inValue: char)
    requires inKey in Lower(searchText) && inValue in Lower(searchText)
    requires forall k :: 0 <= k < |d.key| ==> LowerChar(d.key[k]) != inKey
    requires forall k :: 0 <= k < |d.value| ==> LowerChar(d.value[k]) != inValue
    ensures !d.IsFilter(searchText)
  {
    NotContainsMissingChar(Lower(d.key), Lower(searchText), inKey);
    NotContainsMissingChar(Lower(d.value), Lower(searchText), inValue);
  }

  lemma VolMatchesVolumeRows()
    ensures Volume.IsFilter("VOL") && VolumeMax.IsFilter("VOL")
  {
    LowerSamples();
    assert StartsWith("volume", "vol") && StartsWith("volumemax", "vol");
  }

  /** Searching `"VOL"` shows both volume rows, in list order, and hides the other. */
  lemma SearchIgnoresCase()
    ensures Visible([Brightness, Volume, VolumeMax], "VOL") == [Volume, VolumeMax]
  {
    assert !IsWhiteSpace("VOL"[0]);
    VolMatchesVolumeRows();
    assert Lower("VOL")[0] == 'v';
    HiddenByMissingChars(Brightness, "VOL", 'v', 'v');
    WhereThree(Brightness, Volume, VolumeMax, Shown("VOL"));
  }

  lemma ValueSearchMatchesVolume()
    ensures Volume.IsFilter("0.8")
  {
    LowerSamples();
    assert StartsWith("0.8", "0.8");
  }

  lemma ValueSearchHidesOthers()
    ensures !Brightness.IsFilter("0.8") && !VolumeMax.IsFilter("0.8")
  {
    assert Lower("0.8")[0] == '0' && Lower("0.8")[1] == '.' && Lower("0.8")[2] == '8';
    HiddenByMissingChars(Brightness, "0.8", '0', '.');
    HiddenByMissingChars(VolumeMax, "0.8", '0', '8');
  }

  /** Searching `"0.8"` finds the row by its value. */
  lemma SearchMatchesValue()
    ensures Visible([Brightness, Volume, VolumeMax], "0.8") == [Volume]
  {
    assert !IsWhiteSpace("0.8"[0]);
    ValueSearchMatchesVolume();
    ValueSearchHidesOthers();
    WhereThree(Brightness, Volume, VolumeMax, Shown("0.8"));
  }

  /** After sorting, searching `"VOL"` lists `"Volume"` then `"volumeMax"`. */
  lemma SortThenSearch()
    ensures Visible(OrderByKey([Volume, VolumeMax, Brightness]), "VOL") == [Volume, VolumeMax]
  {
    SortSample();
    SearchIgnoresCase();
  }

  /** Three spaces show the same rows as an empty search text: all of them. */
  lemma SpacesShowEverything(list: seq<KeyValueData>)
    ensures Visible(list, "   ") == list && Visible(list, "") == list
  {
    VisibleBlankIsAll(list, "   ");
    VisibleBlankIsAll(list, "");
  }

  /** Redrawing twice with the same search text and no refresh shows the same rows and leaves the list alone. */
  method RedrawTwice(window: EditorPrefsWindow, decode: seq<byte> -> string, typed: string)
    returns (first: seq<KeyValueData>, second: seq<KeyValueData>)
    modifies window
    ensures first == second
    ensures window.list == old(window.list)
  {
    first := window.OnGUI(false, [], decode, typed);
    second := window.OnGUI(false, [], decode, typed);
  }
}
