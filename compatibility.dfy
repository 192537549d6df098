/**
 The adopter and animal records and the compatibility scorer of the adoption
 application (`calcular_compatibilidade` in app.py).

 Nullable string columns are `Option<string>`: `None` is the column's NULL.
 The scorer compares them with Python's `==`, under which NULL equals NULL and
 differs from every string; `Option` equality is the same relation. Boolean
 columns are plain `bool`: a NULL flag is falsy in every test the scorer makes,
 so it reads as `false`.
 */
module Compatibility {
  import opened Wrappers

  /** The wildcard preference value: it matches every animal on its axis. */
  const Any: string := "qualquer"
  const Small: string := "pequeno"
  const Medium: string := "médio"
  const Large: string := "grande"
  const Apartment: string := "apartamento"
  const HouseWithYard: string := "casa com quintal"
  const MuchExperience: string := "muita"

  /** The columns of an animal that the scorer and the ranker read. */
  datatype Animal = Animal(
    species: string,                // especie, NOT NULL
    size: Option<string>,           // tamanho
    energy: Option<string>,         // energia
    sociableWithChildren: bool,     // sociabilidade_criancas
    sociableWithOtherAnimals: bool, // sociabilidade_outros_animais
    specialCare: Option<string>,    // cuidados_especiais
    available: bool                 // disponivel
  )

  /** The columns of an adopter that the scorer reads. */
  datatype Adopter = Adopter(
    residenceType: Option<string>,     // tipo_residencia
    hasChildren: bool,                 // tem_criancas
    hasOtherAnimals: bool,             // tem_outros_animais
    experience: Option<string>,        // experiencia_animais
    preferredSpecies: Option<string>,  // preferencia_especie
    preferredSize: Option<string>,     // preferencia_tamanho
    preferredEnergy: Option<string>    // preferencia_energia
  )

  /** Python truthiness of a nullable string: neither NULL nor empty. */
  predicate Truthy(s: Option<string>) {
    s.Some? && |s.value| > 0
  }

  /** The preference is the animal's value, or the wildcard. */
  predicate Accepts(preference: Option<string>, value: Option<string>) {
    value == preference || preference == Some(Any)
  }

  // One function per rule of the scorer, in the order the source applies them.

  function SpeciesPoints(a: Animal, d: Adopter): nat {
    if Accepts(d.preferredSpecies, Some(a.species)) then 20 else 0
  }

  /** The size rule is an if/elif: the partial 10 is tried only when the full 20 fails. */
  function SizePoints(a: Animal, d: Adopter): nat {
    if Accepts(d.preferredSize, a.size) then 20
    else if (a.size == Some(Medium) && d.preferredSize == Some(Small))
         || (a.size == Some(Medium) && d.preferredSize == Some(Large)) then 10
    else 0
  }

  function ResidencePoints(a: Animal, d: Adopter): nat {
    if (a.size == Some(Small) && d.residenceType == Some(Apartment))
       || (a.size == Some(Large) && d.residenceType == Some(HouseWithYard)) then 15
    else 0
  }

  function EnergyPoints(a: Animal, d: Adopter): nat {
    if Accepts(d.preferredEnergy, a.energy) then 15 else 0
  }

  function ChildrenPoints(a: Animal, d: Adopter): nat {
    if d.hasChildren && a.sociableWithChildren then 10 else 0
  }

  function OtherAnimalsPoints(a: Animal, d: Adopter): nat {
    if d.hasOtherAnimals && a.sociableWithOtherAnimals then 10 else 0
  }

  function ExperiencePoints(a: Animal, d: Adopter): nat {
    if Truthy(a.specialCare) && d.experience == Some(MuchExperience) then 10 else 0
  }

  /**
   The raw compatibility score: the sum of the seven rules. It never exceeds
   100, and every score is a multiple of 5 because every rule awards one.
   */
  function Score(a: Animal, d: Adopter): (r: nat)
    ensures r <= 100
    ensures r % 5 == 0
  {
    SpeciesPoints(a, d) + SizePoints(a, d) + ResidencePoints(a, d) + EnergyPoints(a, d)
    + ChildrenPoints(a, d) + OtherAnimalsPoints(a, d) + ExperiencePoints(a, d)
  }

  /** A maximal pair: the bound 100 of `Score` is reached. */
  lemma ScoreReachesMaximum(a: Animal, d: Adopter)
    requires a.size == Some(Small) && a.sociableWithChildren && a.sociableWithOtherAnimals
    requires Truthy(a.specialCare)
    requires d.residenceType == Some(Apartment) && d.hasChildren && d.hasOtherAnimals
    requires d.experience == Some(MuchExperience)
    requires d.preferredSpecies == Some(Any) && d.preferredSize == Some(Any)
    requires d.preferredEnergy == Some(Any)
    ensures Score(a, d) == 100
  {
  }

  /** The score is exactly 100 only when every rule gives its full points. */
  lemma PerfectScoreNeedsEveryRule(a: Animal, d: Adopter)
    ensures Score(a, d) == 100 <==>
      SpeciesPoints(a, d) == 20 && SizePoints(a, d) == 20 && ResidencePoints(a, d) == 15
      && EnergyPoints(a, d) == 15 && ChildrenPoints(a, d) == 10
      && OtherAnimalsPoints(a, d) == 10 && ExperiencePoints(a, d) == 10
  {
  }

  /** A wildcard preference gives the full points of its axis whatever the animal. */
  lemma WildcardGivesFullPoints(a: Animal, d: Adopter)
    ensures d.preferredSpecies == Some(Any) ==> SpeciesPoints(a, d) == 20
    ensures d.preferredSize == Some(Any) ==> SizePoints(a, d) == 20
    ensures d.preferredEnergy == Some(Any) ==> EnergyPoints(a, d) == 15
  {
  }

  /** Widening any preference to the wildcard never lowers the score. */
  lemma WildcardNeverLowersScore(a: Animal, d: Adopter)
    ensures Score(a, d) <= Score(a, d.(preferredSpecies := Some(Any)))
    ensures Score(a, d) <= Score(a, d.(preferredSize := Some(Any)))
    ensures Score(a, d) <= Score(a, d.(preferredEnergy := Some(Any)))
  {
  }

  /** The species rule fires exactly on an equal species or the wildcard. */
  lemma SpeciesPointsIff(a: Animal, d: Adopter)
    ensures SpeciesPoints(a, d) == 0 || SpeciesPoints(a, d) == 20
    ensures SpeciesPoints(a, d) == 20 <==>
      d.preferredSpecies == Some(a.species) || d.preferredSpecies == Some(Any)
  {
  }

  /**
   Size gives 20, 10 or 0 and never the 30 of both branches. The 10 comes only
   when the exact-or-wildcard test fails, the animal is medium and the
   preference is small or large.
   */
  lemma SizePointsCases(a: Animal, d: Adopter)
    ensures SizePoints(a, d) in {0, 10, 20}
    ensures SizePoints(a, d) == 20 <==> a.size == d.preferredSize || d.preferredSize == Some(Any)
    ensures SizePoints(a, d) == 10 <==>
      a.size != d.preferredSize && a.size == Some(Medium)
      && (d.preferredSize == Some(Small) || d.preferredSize == Some(Large))
  {
  }

  /** The partial credit is one-sided: a small or large animal gets nothing from a medium preference. */
  lemma MediumPreferenceGetsNoPartialCredit(a: Animal, d: Adopter)
    requires d.preferredSize == Some(Medium)
    requires a.size == Some(Small) || a.size == Some(Large)
    ensures SizePoints(a, d) == 0
  {
  }

  /** NULL equals NULL under Python's `==`: an unset size meets an unset preference. */
  lemma UnsetSizeMatchesUnsetPreference(a: Animal, d: Adopter)
    requires a.size == None && d.preferredSize == None
    ensures SizePoints(a, d) == 20
  {
  }

  /**
   The residence bonus is earned by exactly two pairs: a small animal in an
   apartment and a large animal in a house with a yard.
   */
  lemma ResidencePointsIff(a: Animal, d: Adopter)
    ensures ResidencePoints(a, d) == 0 || ResidencePoints(a, d) == 15
    ensures ResidencePoints(a, d) == 15 <==>
      (a.size, d.residenceType) == (Some(Small), Some(Apartment))
      || (a.size, d.residenceType) == (Some(Large), Some(HouseWithYard))
  {
  }

  /** A house without a yard (or any other residence type) never earns the residence bonus. */
  lemma OtherResidenceEarnsNothing(a: Animal, d: Adopter)
    requires d.residenceType != Some(Apartment) && d.residenceType != Some(HouseWithYard)
    ensures ResidencePoints(a, d) == 0
  {
  }

  /** The energy rule fires exactly on an equal energy level or the wildcard. */
  lemma EnergyPointsIff(a: Animal, d: Adopter)
    ensures EnergyPoints(a, d) == 0 || EnergyPoints(a, d) == 15
    ensures EnergyPoints(a, d) == 15 <==> a.energy == d.preferredEnergy || d.preferredEnergy == Some(Any)
  {
  }

  /** The two sociability bonuses need both the adopter's flag and the animal's. */
  lemma SociabilityPointsIff(a: Animal, d: Adopter)
    ensures ChildrenPoints(a, d) == 0 || ChildrenPoints(a, d) == 10
    ensures ChildrenPoints(a, d) == 10 <==> d.hasChildren && a.sociableWithChildren
    ensures OtherAnimalsPoints(a, d) == 0 || OtherAnimalsPoints(a, d) == 10
    ensures OtherAnimalsPoints(a, d) == 10 <==> d.hasOtherAnimals && a.sociableWithOtherAnimals
  {
  }

  /** The experience bonus needs non-empty special-care notes and much experience. */
  lemma ExperiencePointsIff(a: Animal, d: Adopter)
    ensures ExperiencePoints(a, d) == 0 || ExperiencePoints(a, d) == 10
    ensures ExperiencePoints(a, d) == 10 <==>
      a.specialCare.Some? && a.specialCare.value != "" && d.experience == Some(MuchExperience)
  {
  }

  /** The note "Nenhum" ("none") is a non-empty string, so it counts as special care. */
  lemma NoneNoteCountsAsSpecialCare(a: Animal, d: Adopter)
    requires a.specialCare == Some("Nenhum") && d.experience == Some(MuchExperience)
    ensures ExperiencePoints(a, d) == 10
  {
  }

  /**
   A small dog with the adopter's species, size and energy, in an apartment,
   good with the adopter's children: 20 + 20 + 15 + 15 + 10 = 80.
   */
  lemma SmallDogInApartmentScores80()
    ensures Score(Animal("cão", Some(Small), Some("baixa"), true, false, Some(""), true),
                  Adopter(Some(Apartment), true, false, Some("nenhuma"),
                          Some("cão"), Some(Small), Some("baixa"))) == 80
  {
  }

  /** Wildcards on species and size alone, nothing else: 20 + 20 = 40. */
  lemma WildcardsAloneScore40()
    ensures Score(Animal("gato", Some(Large), Some("alta"), false, false, Some(""), true),
                  Adopter(Some("casa sem quintal"), false, false, Some("nenhuma"),
                          Some(Any), Some(Any), Some("baixa"))) == 40
  {
  }
}
