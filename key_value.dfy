/**
 * `KeyValueData`: one row of the preference viewer, a key and its value as
 * text, fixed when it is built; with its search predicate `IsFilter` and its
 * deconstruction into a pair.
 */
module KeyValue {
  import opened Strings

  datatype KeyValueData = KeyValueData(key: string, value: string) {

    /**
     * The row matches a search text when that text, lowered, occurs as a
     * contiguous block in the lowered key or in the lowered value.
     */
    predicate IsFilter(searchText: string) {
      var needle := Lower(searchText);
      Contains(Lower(key), needle) || Contains(Lower(value), needle)
    }

    /** `var (key, value) = data;` */
    function Deconstruct(): (pair: (string, string))
      ensures KeyValueData(pair.0, pair.1) == this
    {
      (key, value)
    }
  }

  /** `IsFilter` in terms of positions: an occurrence of the lowered text in the lowered key or value. */
  lemma IsFilterOccurs(d: KeyValueData, searchText: string)
    ensures d.IsFilter(searchText) <==>
      (exists i :: OccursAt(Lower(d.key), Lower(searchText), i)) ||
      (exists i :: OccursAt(Lower(d.value), Lower(searchText), i))
  {
    ContainsIff(Lower(d.key), Lower(searchText));
    ContainsIff(Lower(d.value), Lower(searchText));
  }

  /** Search texts that differ only in letter case select the same rows. */
  lemma IsFilterIgnoresCase(d: KeyValueData, s: string, t: string)
    requires Lower(s) == Lower(t)
    ensures d.IsFilter(s) == d.IsFilter(t)
  {
  }

  /** Lowering the search text first changes nothing. */
  lemma IsFilterLowered(d: KeyValueData, searchText: string)
    ensures d.IsFilter(searchText) == d.IsFilter(Lower(searchText))
  {
    LowerIdempotent(searchText);
  }

  /** The empty search text matches every row. */
  lemma IsFilterEmpty(d: KeyValueData)
    ensures d.IsFilter("")
  {
    ContainsEmpty(Lower(d.key));
  }

  /**
   * A row that matches a search text also matches every block of it: typing
   * more characters can only remove rows from the view, never add them.
   */
  lemma IsFilterNarrows(d: KeyValueData, longer: string, shorter: string)
    requires Contains(longer, shorter)
    requires d.IsFilter(longer)
    ensures d.IsFilter(shorter)
  {
    ContainsLower(longer, shorter);
    if Contains(Lower(d.key), Lower(longer)) {
      ContainsTransitive(Lower(d.key), Lower(longer), Lower(shorter));
    } else {
      ContainsTransitive(Lower(d.value), Lower(longer), Lower(shorter));
    }
  }

  /** Deconstruction gives back exactly what the constructor stored, and rebuilding gives the same row. */
  lemma DeconstructRoundTrip(key: string, value: string, d: KeyValueData)
    ensures KeyValueData(key, value).Deconstruct() == (key, value)
    ensures KeyValueData(d.Deconstruct().0, d.Deconstruct().1) == d
  {
  }
}
