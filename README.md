# PetLar matching, modelled in Dafny

PetLar is a small adoption web application. It registers animals and adopters and, for a
logged-in adopter, lists the available animals ranked by a hand-coded compatibility score.
This project models that matching: the compatibility scorer `calcular_compatibilidade` and the
filter / score / threshold / sort pipeline inside the `/matches` route `ver_matches`, both in
`app.py`. It proves properties of the model.

- `wrappers.dfy`: module `Wrappers`. `Option`, used for nullable database columns.
- `compatibility.dfy`: module `Compatibility`. The `Animal` and `Adopter` records hold only the
  columns the matching reads. There is one function per scoring rule, and `Score` is their sum.
  Lemmas state what each rule awards.
- `matching.dfy`: module `Matching`. This has the `Match` record (animal, raw score, percentage),
  the percentage conversion, the availability filter (`Available`) and the loop's output in
  encounter order (`Qualified`), with lemmas saying what each holds. It also has a stable descending insertion sort (`SortByScoreDesc`)
  and the ranker `RankMatches`.

Modelling decisions:

- Nullable string columns (`tamanho`, `energia`, `cuidados_especiais`, `tipo_residencia`,
  `experiencia_animais`, the three preferences) are `Option<string>`. Python's `==` makes NULL
  equal to NULL and different from every string, and `Option` equality is the same relation. So an
  animal and an adopter that both leave size (or energy) unset earn that rule's points.
  `especie` is `NOT NULL` and stays a plain `string`.
- Boolean columns are `bool`. A NULL flag is falsy in every test the scorer makes, so it reads as
  `false`.
- `cuidados_especiais` counts when it is Python-truthy: neither NULL nor empty. The note
  `"Nenhum"` is non-empty, so it counts.
- `score * 3.3` is a floating-point product in the source. The model computes it exactly as
  `33 * score / 10`, then truncates like `int` and caps at 100. Every reachable score is a
  multiple of 5 between 0 and 100, and only scores 0 to 30 fall below the cap. For these, the
  truncated double product is taken to give the same integer (10, 20 and 30 give 33, 66 and 99).
  This is an assumption about IEEE doubles, not something proved here.
- The percentage is truncated, not rounded. A raw 15 therefore gives 49 and is not shown. The
  design notes for this system call the value rounded, under which 15 would give 50 and be shown.
  The model follows the code.
- The database query `Animal.query.filter_by(disponivel=True).all()` becomes a filter over a given
  sequence of animals. Its order is taken as the query's order. The query itself names no order.
- Python's `list.sort(key=..., reverse=True)` is stable, and `reverse=True` keeps equal keys in
  their original order. `StablySorted` specifies this: the result is ordered by score
  (non-increasing), it is a permutation of the input, and for every score the matches with that
  score keep their input order. `StableSortUnique` proves that these conditions fix the result
  uniquely, so they describe Python's sort exactly.

## Model

| member | source | states |
|---|---|---|
| `Compatibility.Score` | app.py:164-199 | the raw score never exceeds 100 and is always a multiple of 5 (every rule awards 20, 10 or 15 points or none) |
| `Compatibility.ScoreReachesMaximum` | app.py:164-199 | the bound 100 is reached: a small, sociable animal with special care, in an apartment with an experienced adopter with children and other animals and all-wildcard preferences, scores 100 |
| `Compatibility.PerfectScoreNeedsEveryRule` | app.py:164-199 | the score is 100 exactly when every rule gives its full points (the size rule its 20, not its 10) |
| `Compatibility.WildcardGivesFullPoints` | app.py:168-185 | a `'qualquer'` preference gives 20 for species, 20 for size and 15 for energy, whatever the animal's value |
| `Compatibility.WildcardNeverLowersScore` | app.py:164-199 | changing the species, size or energy preference to `'qualquer'` never lowers the score |
| `Compatibility.SpeciesPointsIff` | app.py:167-169 | species gives 0 or 20, and 20 exactly when the preference is the animal's species or the wildcard |
| `Compatibility.SizePointsCases` | app.py:171-176 | size gives 0, 10 or 20 and never 30. It gives 20 exactly on an equal size or the wildcard, and 10 exactly when that fails, the animal is medium and the preference is small or large |
| `Compatibility.MediumPreferenceGetsNoPartialCredit` | app.py:174-175 | the partial credit is one-sided: a small or large animal gets 0 for size from a medium preference |
| `Compatibility.UnsetSizeMatchesUnsetPreference` | app.py:172-173 | an animal with no size and an adopter with no size preference earn the full 20 (NULL equals NULL) |
| `Compatibility.ResidencePointsIff` | app.py:178-181 | residence gives 0 or 15, and 15 exactly for (small, apartment) or (large, house with yard) |
| `Compatibility.OtherResidenceEarnsNothing` | app.py:179-181 | any other residence type, such as a house without a yard, never earns the residence bonus |
| `Compatibility.EnergyPointsIff` | app.py:183-185 | energy gives 0 or 15, and 15 exactly on an equal energy level or the wildcard |
| `Compatibility.SociabilityPointsIff` | app.py:187-193 | the children and other-animals bonuses each give 0 or 10, and 10 exactly when both the adopter's flag and the animal's sociability flag are set |
| `Compatibility.ExperiencePointsIff` | app.py:195-197 | experience gives 0 or 10, and 10 exactly when special-care notes are present and non-empty and the adopter's experience is `"muita"` |
| `Compatibility.NoneNoteCountsAsSpecialCare` | app.py:196-197 | the care note `"Nenhum"` is non-empty, so an experienced adopter earns the 10 for it |
| `Compatibility.SmallDogInApartmentScores80` | app.py:164-199 | a small low-energy dog matching the adopter's preferences, in an apartment, good with children, scores 20+20+15+15+10 = 80 |
| `Compatibility.WildcardsAloneScore40` | app.py:164-199 | wildcards on species and size with nothing else matching score exactly 40 |
| `Matching.Percentage` | app.py:211 | the percentage lies in [0, 100]. Below 100 it is the truncation of score × 3.3 (p·10 ≤ 33·score < p·10 + 10). It is 100 exactly when the score is at least 31 |
| `Matching.PercentageAtThreshold` | app.py:211-213 | truncation at the boundary: 14 → 46 and 15 → 49 (not shown), 16 → 52, 20 → 66, 30 → 99, 40 → 100 |
| `Matching.PercentageThresholdIff` | app.py:211-213 | a percentage of at least 50 is the same as a raw score of at least 16 |
| `Matching.ShownIff` | app.py:210-213 | since scores are multiples of 5, an animal passes the 50 per cent threshold exactly when it scores at least 20 |
| `Matching.AvailableCounts` | app.py:206 | the query result holds every available animal exactly as often as it occurs in the input, and no unavailable one |
| `Matching.QualifiedContents` | app.py:208-218 | every entry of the loop's list is an animal's own score and percentage, and it has percentage ≥ 50. Each animal that reaches the threshold appears as often as it occurs, and no other animal appears |
| `Matching.WithScoreConcat` | app.py:221 | taking the matches of one score distributes over concatenation (used in the stability proof) |
| `Matching.WithScoreMembers` | app.py:221 | the matches selected for a score come from the list and have that score, and none are selected when no match has it |
| `Matching.InsertKeepsSorted` | app.py:221 | inserting a match after all higher-or-equal scores and before all lower ones keeps the list in order |
| `Matching.InsertAfterEqualScores` | app.py:221 | that insertion adds the match at the end of the matches of its own score and changes no other score's matches |
| `Matching.InsertAddsOne` | app.py:221 | that insertion adds the one match to the multiset and nothing else |
| `Matching.InsertStep` | app.py:221 | one insertion step turns a stable sort of a prefix into a stable sort of the prefix extended by the next match |
| `Matching.SortByScoreDesc` | app.py:221 | `matches.sort(key=score, reverse=True)`: the result is ordered by score (non-increasing), is a permutation of the input, and keeps equal scores in input order |
| `Matching.StableSortUnique` | app.py:221 | two lists ordered by score that agree on the matches of every score are equal, so the stable sort has exactly one result |
| `Matching.StableSortKeepsSorted` | app.py:221 | a stable sort leaves an already ordered list unchanged, so ties are never reordered |
| `Matching.ShownAvailableAfterSort` | app.py:206-218 | reordering the loop's list keeps what it holds: the matches of available animals reaching the threshold, each animal as often as it occurs |
| `Matching.RankMatches` | app.py:206-221 | every returned match is of an available animal, carries that animal's score and percentage, and has percentage ≥ 50. Every available animal that reaches the threshold appears exactly as often as in the input, and nothing else appears. The list is the stable descending sort, by raw score, of the loop's output |
| `Matching.TiedPairQualified` | app.py:206-218 | for two available, shown animals with equal scores, the loop's list is their two matches in input order |
| `Matching.TiedPairKeepsInputOrder` | app.py:221 | any result the ranker's contract allows for two tied, shown, available animals lists them in input order |

## Left out

- Flask routes, `session`, `login_required`, `get_or_404` and `render_template` (app.py:50-92, 201-205, 223-225): HTTP and session plumbing. The adopter is a parameter of `RankMatches` rather than being looked up from the session. A missing adopter is therefore the caller's concern.
- The database: the SQLAlchemy models beyond the columns the matching reads, the queries, commits, rollbacks and `db.create_all`. The candidate animals are an input sequence.
- Password hashing and checking (`werkzeug.security`): foreign library calls.
- Registration form handling, including the required-field check (app.py:94-161): it works on `request.form` and the database.
- The percentage string `f"{compatibilidade}%"` (app.py:216): presentation only. `Match.percentage` holds the integer.
- Floating point: `score * 3.3` is computed exactly as `33 * score / 10` (see above).
- Matching.RankMatches: the list is built in a sequence and sorted by a stable insertion sort. It does not model the in-place mutation of one Python list object, or the particular algorithm Python's `list.sort` uses. Only the result, which `StableSortUnique` pins down, is modelled.
- `popular_banco.py`: random test-data seeding with database writes. It is used only as a guide to the string values the columns hold.
