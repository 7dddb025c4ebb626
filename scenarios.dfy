/** The queries on small concrete lists. */
module Scenarios {
  import opened Wrappers
  import opened JavaString
  import opened LegoSetRepository

  /** Three records, two themes, one piece count and two tag lists. */
  function ThreeSets(): seq<LegoSet> {
    [ LegoSet("Fire Truck", "City", None, None, Some(["vehicle", "rescue"])),
      LegoSet("Farm House", "Duplo", None, None, Some(["rescue", "house"])),
      LegoSet("Castle", "City", None, Some(500), None) ]
  }

  lemma ThreeSetsScalars()
    ensures IsAtLeastOneSetWithoutSubTheme(ThreeSets())
    ensures TotalPiecesOfTheLegoSets(ThreeSets()) == 500
  {
  }

  lemma ThreeSetsCounts()
    ensures NumberOfLegoSetsByTheme(ThreeSets()) == map["City" := 2, "Duplo" := 1]
  {
  }

  lemma ThreeSetsLongest()
    ensures LongestNameByTheme(ThreeSets())["City"] == "Fire Truck"
  {
  }

  lemma ThreeSetsTags()
    ensures DistinctTagsWhereNameStartsWith(ThreeSets(), "F") == ["house", "rescue", "vehicle"]
  {
    var sets := ThreeSets();
    var lines := ["house", "rescue", "vehicle"];
    assert Less("house", "rescue") && Less("rescue", "vehicle") && Less("house", "vehicle");
    forall tag ensures tag in lines <==> SelectedTag(sets, "F", tag) {
      if tag in lines {
        assert Selected(sets[0], "F") && Selected(sets[1], "F");
        assert tag in sets[0].tags.value || tag in sets[1].tags.value;
      }
    }
    PrintedTagsAreDetermined(sets, "F", lines);
  }

  /** Two names of the same length in one theme: the earlier record wins. */
  lemma LongestNameTieKeepsFirst()
    ensures LongestNameByTheme([
      LegoSet("Castle", "City", None, None, None),
      LegoSet("Police", "City", None, None, None)])["City"] == "Castle"
  {
  }
}
