# Character reports of `CharacterDataProcessor`

This project models the reporting layer of the Rick-and-Morty character
pipeline in `main.py`. The layer is the part of `CharacterDataProcessor` that
works on the fetched record list. It has three operations and one fixed
default report:

- the **status distribution**: a `Counter` over the records' `status` field,
  whose keys are the bars of the status chart;
- the **species listing**: the records whose `species` equals a target
  ignoring case, printed under a header;
- the **name search**: the records whose `name` contains a term ignoring
  case, printed under a header, or a single "No characters found…" line when
  nothing matches;
- **`process_data`**: the chart, then the listing for "Human", then the
  search for "Morty".

The record list is set once when the processor is built and only read after
that, so every operation is a pure function of a `seq<Character>`. Nothing
can change the records; that is why no operation needs a frame.

Modules:

- `Text` (`text.dfy`): ASCII lower-casing, the model of `str.lower`. Also the
  substring test behind `term in name`. `Contains` is a scan from the left,
  and `ContainsIff` ties it to "occurs at some position".
- `Filtering` (`filtering.dfy`): the order-preserving filter a list
  comprehension computes, and the subsequence relation. `FilterUnique` gives
  a second definition of the filter: its result is the one longest
  subsequence whose elements all satisfy the predicate.
- `Counting` (`counting.dfy`): `collections.Counter` built from an iterable.
  It is a sequence of `Entry(key, count)` kept in insertion order. `Tally`
  is one step: an existing key has its count raised where it stands, and a
  new key is appended with count one. `Count` folds `Tally` over the input
  from left to right.
- `CharacterData` (`character_data.dfy`): the `Character` record, the three
  operations, their printed output and `ProcessData`.
- `Fixtures` (`fixtures.dfy`): a three-record scenario (Rick Sanchez and
  Morty Smith, both human and alive, and Birdperson, an alien who is dead),
  with the results the operations give on it.

Printed output is modelled as a `seq<string>` with one element per `print`
call. The newline that `print` appends is not part of the element. The
leading `\n` that the two header f-strings start with is kept. The default
report is a `seq<Output>`. Its first element is `Chart(bars)`, which stands
for the drawn chart. Every element after it is `Printed(line)`.

`show_characters_by_species` and `find_characters_by_name` return `None` and
only print. The model therefore gives the list comprehension
(`SpeciesMatches`, `NameMatches`) and the printed lines (`SpeciesListing`,
`NameReport`) as separate functions.

## Model

| member | source | states |
|---|---|---|
| `Text.LowerChar` | main.py:146 | lower-casing one character leaves no ASCII capital, moves each capital to its small letter, and leaves every other character unchanged |
| `Text.ToLower` | main.py:146 | lower-casing keeps the length and lower-cases each character where it stands |
| `Text.ToLowerIdempotent` | main.py:146 | lower-casing a lower-cased string changes nothing |
| `Text.ToLowerHasNoUpper` | main.py:158 | a lower-cased string has no ASCII capital letters |
| `Text.Contains` | main.py:158 | the empty term is in every string, and a string that contains the term is at least as long as it |
| `Text.ContainsIff` | main.py:158 | the substring scan succeeds exactly when the needle occurs at some position of the haystack |
| `Text.OccursAtContains` | main.py:158 | an occurrence of the needle at any position is found by the scan |
| `Text.ContainsEmpty` | main.py:158 | the empty term is in every string |
| `Text.ContainsNeedsRoom` | main.py:158 | a haystack shorter than the needle does not contain it |
| `Text.NotContainsPast` | main.py:158 | the needle is absent if its first character is missing from a prefix and too few characters follow that prefix |
| `Filtering.Filter` | main.py:146 | the comprehension's result is no longer than its input; every kept element is from the input and satisfies the condition; every input element that satisfies it is kept |
| `Filtering.FilterIsSubsequence` | main.py:146 | the comprehension keeps input order: its result is a subsequence of the input |
| `Filtering.FilterMaximal` | main.py:158 | every subsequence of the input whose elements all satisfy the condition is a subsequence of the comprehension's result |
| `Filtering.FilterUnique` | main.py:146 | the comprehension's result is the single longest subsequence of the input whose elements all satisfy the condition |
| `Filtering.FilterAll` | main.py:158 | when every element satisfies the condition, the comprehension returns its input unchanged |
| `Filtering.FilterExtensional` | main.py:146 | two conditions that agree on every input element give the same result |
| `Filtering.SubsequenceLength` | main.py:146 | a subsequence is no longer than its source |
| `Filtering.SubsequenceOfSameLength` | main.py:146 | a subsequence as long as its source is the source |
| `Filtering.SubsequenceTail` | main.py:146 | a subsequence of the tail is a subsequence of the whole |
| `Filtering.SubsequenceDrop` | main.py:146 | dropping the first element of a subsequence leaves a subsequence |
| `Counting.FirstIndex` | main.py:125 | the position returned is the first at which the key occurs, or the length when it does not occur |
| `Counting.Tally` | main.py:125 | counting one more element keeps the keys distinct. A key already present keeps its position and has only its own count raised by one. A new key is appended with count one |
| `Counting.Count` | main.py:125 | a `Counter` never has the same key twice |
| `Counting.TallyTotal` | main.py:125 | counting one more element raises the sum of the counts by one |
| `Counting.CountTotal` | main.py:125 | the counts of a `Counter` sum to the number of counted elements |
| `Counting.CountKeys` | main.py:125 | a value is a key of the `Counter` exactly when it occurs in the input |
| `Counting.CountCounts` | main.py:125 | each key's count is its number of occurrences in the input, and no count is zero |
| `Counting.CountOrder` | main.py:125-127 | the keys are in order of first occurrence in the input, which is the order the chart's bars are drawn in |
| `Counting.FirstIndexExtend` | main.py:125 | appending an element leaves the first occurrence of every earlier element where it was, and a new element first occurs at the end |
| `Counting.OccurrencesAbsent` | main.py:125 | a value that does not occur has zero occurrences |
| `CharacterData.Statuses` | main.py:125 | the counted generator yields each record's status, in record order |
| `CharacterData.StatusDistribution` | main.py:125-127 | the bar counts sum to the number of records. No status is a key twice. A status is a key exactly when some record has it. Each count is the number of records with that status and is positive. Bars are ordered by the first record having each status |
| `CharacterData.SpeciesIs` | main.py:146 | the species condition accepts a record whose species is the target exactly, and accepts only species as long as the target |
| `CharacterData.SpeciesMatches` | main.py:146 | a record is matched exactly when it is in the data and its lower-cased species equals the lower-cased target; the result is a subsequence of the data, so never longer |
| `CharacterData.SpeciesMatchesUnique` | main.py:146 | the species matches are the one longest subsequence of the data whose records all have the target species ignoring case |
| `CharacterData.SpeciesHeader` | main.py:147 | the listing header starts with a newline and holds the target exactly as given at position 10, with 13 closing characters after it |
| `CharacterData.SpeciesLine` | main.py:149 | a listing line starts with `- ` and then the name; the status follows two characters after the name, and the line ends with `)` |
| `CharacterData.SpeciesListing` | main.py:147-149 | the listing always starts with the header, even with no match. After it comes exactly one `- name (status)` line per match, in match order |
| `CharacterData.SpeciesCaseInsensitive` | main.py:146-149 | targets equal after lower-casing select the same records and print the same record lines; only the header shows the target as given |
| `CharacterData.HumanAnyCase` | main.py:146 | "Human", "human" and "HUMAN" select the same records |
| `CharacterData.NameMatches` | main.py:158 | a record is matched exactly when it is in the data and its lower-cased name contains the lower-cased term; the result is a subsequence of the data, so never longer |
| `CharacterData.NameMatchesUnique` | main.py:158 | the name matches are the one longest subsequence of the data whose names all contain the term ignoring case |
| `CharacterData.NameHas` | main.py:158 | the name condition accepts every record for the empty term and a record whose name is the term, and only names at least as long as the term |
| `CharacterData.NotFoundLine` | main.py:160 | the not-found line starts with `N` and holds the term as given at position 26, with 16 closing characters after it; so it is neither a header nor a record line |
| `CharacterData.NameHeader` | main.py:162 | the search header starts with a newline and holds the term as given at position 24, with 16 closing characters after it |
| `CharacterData.NameLine` | main.py:164 | a search line starts with `- ` and then the name; the species follows two characters after the name, and the line ends with `)` |
| `CharacterData.NameMatchesCons` | main.py:158 | the search decides the first record, then searches the rest |
| `CharacterData.NameMatchesAt` | main.py:158 | a record is matched exactly when the lower-cased term occurs at some position of its lower-cased name |
| `CharacterData.NameCaseInsensitive` | main.py:158 | terms equal after lower-casing select the same records |
| `CharacterData.EmptyTermMatchesAll` | main.py:158 | the empty term matches every record, so the search returns the data unchanged |
| `CharacterData.NameReport` | main.py:159-164 | with no match, the output is the not-found line alone. Otherwise it is the header, then exactly one `- name (species)` line per match, in match order |
| `CharacterData.NameReportHeader` | main.py:159-162 | the output starts with the header exactly when something matches. Some line is a header or a record line exactly when something matches |
| `CharacterData.PrintedLines` | main.py:147-164 | each printed line becomes one report element, in order |
| `CharacterData.ProcessData` | main.py:114-116 | the report is the chart of the status distribution, then the "Human" listing line by line, then the "Morty" search output line by line, and nothing else |
| `CharacterData.ProcessDataShape` | main.py:114-116 | the report has at least three elements. Only the first is a chart, with at most one bar per record. Every later element is a printed line |
| `CharacterData.DistinctKeysBound` | main.py:125 | the distribution has at most one bar per record |
| `CharacterData.TotalBound` | main.py:125 | with every count positive, there are no more bars than the total count |
| `Fixtures.HumanFixture` | main.py:146 | on two humans and an alien, the "Human" filter keeps exactly the two humans, in order |
| `Fixtures.HumanListingFixture` | main.py:147-149 | on the same records, the "Human" listing is the header followed by the two humans' lines |
| `Fixtures.MortyFixture` | main.py:158 | searching "Morty" among Rick Sanchez, Morty Smith and Birdperson finds only Morty Smith |
| `Fixtures.NoMatchFixture` | main.py:158-161 | searching "zzz" finds nothing, and the output is the not-found line alone |
| `Fixtures.StatusFixture` | main.py:125 | two living characters then a dead one give the bars ("Alive", 2) then ("Dead", 1) |

## Left out

- `APICharacterRetriever.get_characters` (main.py:33-37) is an HTTP request and a JSON parse. This is network I/O through a library whose code is not available. The model takes the fetched record list as its input.
- `RedisDataHandler` (main.py:54-91) is not modelled: the connection, `ping` with the `exit(1)` on a connection error, and `save_data`/`load_data` through `json.dumps`/`json.loads`. They are thin wrappers over a Redis client and the JSON library, whose behaviour is not part of this model.
- The matplotlib drawing in `display_status_distribution` (main.py:126-137) is not modelled: figure size, bar colours, labels, the count text over each bar, saving to `status_distribution.png` and showing the window. It is graphics and file I/O. The model keeps only the counted bars, as `Chart(bars)`.
- `WorkflowExecutor.execute` (main.py:189-196) and the constants under `__main__` (main.py:198-202) only run the I/O stages in sequence. They hand the fetched list unchanged to the processor, and `ProcessData` starts from that list.
- Text.ToLower: models ASCII lower-casing only, not Python's full Unicode case mapping in `str.lower`. Non-ASCII letters are left unchanged.
- Records are a typed datatype with all three fields present. The `KeyError` that a dictionary without `name`, `status` or `species` would raise is not modelled.
- The function `print` itself is output. The model gives the printed lines as values, and says nothing about standard output.
