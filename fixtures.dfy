/** Concrete scenarios for the reporting layer: two humans and an alien. */
module Fixtures {
  import opened Text
  import opened Counting
  import opened CharacterData

  function Rick(): Character { Character("Rick Sanchez", "Alive", "Human") }
  function Morty(): Character { Character("Morty Smith", "Alive", "Human") }
  function Birdperson(): Character { Character("Birdperson", "Dead", "Alien") }

  function Cast(): seq<Character> { [Rick(), Morty(), Birdperson()] }

  /** The species filter for "Human" keeps the two humans in their order. */
  lemma HumanFixture()
    ensures SpeciesMatches(Cast(), "Human") == [Rick(), Morty()]
  {
    assert ToLower("Human") == "human";
    assert ToLower("Alien")[0] == 'a';
    SpeciesMatchesUnique(Cast(), "Human", [Rick(), Morty()]);
  }

  /** The "Human" listing prints the header and one line per human. */
  lemma HumanListingFixture()
    ensures SpeciesListing(Cast(), "Human") ==
              [SpeciesHeader("Human"), SpeciesLine(Rick()), SpeciesLine(Morty())]
  {
    HumanFixture();
    var out := SpeciesListing(Cast(), "Human");
    assert |out| == 3;
    assert out[1] == SpeciesLine(Rick());
    assert out[2] == SpeciesLine(Morty());
    assert out == [out[0], out[1], out[2]];
  }

  /** Morty Smith's name contains "Morty" but not "zzz", ignoring case. */
  lemma MortyName()
    ensures NameHas(Morty(), "Morty") && !NameHas(Morty(), "zzz")
  {
    LowerFacts();
    assert StartsWith("morty smith", "morty");
    NotContainsPast("morty smith", "zzz", 11);
  }

  /** Rick Sanchez's name does not contain "Morty", ignoring case. */
  lemma RickNotMorty()
    ensures !NameHas(Rick(), "Morty")
  {
    LowerFacts();
    assert !Contains("rick sanchez", "morty") by {
      NotContainsPast("rick sanchez", "morty", 12);
    }
  }

  /** Rick Sanchez's name does not contain "zzz", ignoring case. */
  lemma RickNotZzz()
    ensures !NameHas(Rick(), "zzz")
  {
    LowerFacts();
    assert !Contains("rick sanchez", "zzz") by {
      NotContainsPast("rick sanchez", "zzz", 10);
    }
  }

  /** Birdperson's name contains neither "Morty" nor "zzz", ignoring case. */
  lemma BirdpersonName()
    ensures !NameHas(Birdperson(), "Morty")
    ensures !NameHas(Birdperson(), "zzz")
  {
    LowerFacts();
    assert 'm' !in "birdperson" && 'z' !in "birdperson";
    assert "birdperson"[..10] == "birdperson";
    NotContainsPast("birdperson", "morty", 10);
    NotContainsPast("birdperson", "zzz", 10);
  }

  /** The lower-cased names and terms of the scenarios. */
  lemma LowerFacts()
    ensures ToLower("Morty") == "morty" && ToLower("zzz") == "zzz"
    ensures ToLower("Morty Smith") == "morty smith"
    ensures ToLower("Rick Sanchez") == "rick sanchez"
    ensures ToLower("Birdperson") == "birdperson"
  {
  }

  /** Searching for "Morty" finds only Morty Smith. */
  lemma MortyFixture()
    ensures NameMatches(Cast(), "Morty") == [Morty()]
  {
    MortyName();
    RickNotMorty();
    BirdpersonName();
    NameMatchesCons(Rick(), [Morty(), Birdperson()], "Morty");
    NameMatchesCons(Morty(), [Birdperson()], "Morty");
    NameMatchesCons(Birdperson(), [], "Morty");
  }

  /** Searching for "zzz" finds nothing and prints only the not-found line. */
  lemma NoMatchFixture()
    ensures NameMatches(Cast(), "zzz") == []
    ensures NameReport(Cast(), "zzz") == [NotFoundLine("zzz")]
  {
    MortyName();
    RickNotZzz();
    BirdpersonName();
    NameMatchesCons(Rick(), [Morty(), Birdperson()], "zzz");
    NameMatchesCons(Morty(), [Birdperson()], "zzz");
    NameMatchesCons(Birdperson(), [], "zzz");
  }

  /** Two living characters and one dead one give two bars, "Alive" first. */
  lemma StatusFixture()
    ensures StatusDistribution(Cast()) == [Entry("Alive", 2), Entry("Dead", 1)]
  {
    var statuses := Statuses(Cast());
    assert statuses == ["Alive", "Alive", "Dead"];
    assert statuses[..2] == ["Alive", "Alive"];
    CountTwiceAlive();
    assert !HasKey([Entry("Alive", 2)], "Dead") by {
      assert "Dead" != "Alive";
    }
  }

  /** Counting "Alive" twice gives one key with count two. */
  lemma CountTwiceAlive()
    ensures Count(["Alive", "Alive"]) == [Entry("Alive", 2)]
  {
    assert ["Alive", "Alive"][..1] == ["Alive"];
    assert Count(["Alive"]) == [Entry("Alive", 1)] by {
      assert ["Alive"][..0] == [];
    }
  }
}
