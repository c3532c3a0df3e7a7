/** The reporting layer of `CharacterDataProcessor`: a status distribution,
    a species listing and a name search over a fixed sequence of character
    records, and the default report that runs the three in turn. The record
    sequence is a value that no operation changes; printed output is the
    sequence of lines printed, one element per `print` call. */
module CharacterData {
  import opened Text
  import opened Filtering
  import opened Counting

  /** One character record with the three fields the reports read. */
  datatype Character = Character(name: string, status: string, species: string)

  /** What the default report produces, in order: the status chart (its
      bars, one per distinct status) and the lines printed. */
  datatype Output = Chart(bars: seq<Entry<string>>) | Printed(line: string)

  // ---------------------------------------------------------------------
  // Status distribution

  /** The status of every record, in record order (the generator counted). */
  function Statuses(data: seq<Character>): (r: seq<string>)
    ensures |r| == |data|
    ensures forall k :: 0 <= k < |data| ==> r[k] == data[k].status
  {
    seq(|data|, k requires 0 <= k < |data| => data[k].status)
  }

  /** The number of records whose status is `st`. */
  function StatusCount(data: seq<Character>, st: string): nat {
    Occurrences(Statuses(data), st)
  }

  /** The position of the first record whose status is `st`. */
  function FirstWithStatus(data: seq<Character>, st: string): nat {
    FirstIndex(Statuses(data), st)
  }

  /** A `Counter` over the records' statuses: the bars of the status chart,
      one per distinct status in order of first occurrence, each carrying
      the number of records with that status. */
  function StatusDistribution(data: seq<Character>): (r: seq<Entry<string>>)
    ensures Total(r) == |data|
    ensures DistinctKeys(r)
    ensures forall st :: HasKey(r, st) <==> exists k :: 0 <= k < |data| && data[k].status == st
    ensures forall i :: 0 <= i < |r| ==> r[i].count == StatusCount(data, r[i].key) && r[i].count > 0
    ensures forall i, j :: 0 <= i < j < |r| ==>
              FirstWithStatus(data, r[i].key) < FirstWithStatus(data, r[j].key)
  {
    var statuses := Statuses(data);
    CountTotal(statuses);
    CountCounts(statuses);
    CountOrder(statuses);
    assert forall st :: HasKey(Count(statuses), st) <==> st in statuses by {
      forall st ensures HasKey(Count(statuses), st) <==> st in statuses {
        CountKeys(statuses, st);
      }
    }
    Count(statuses)
  }

  // ---------------------------------------------------------------------
  // Species listing

  /** The species test of the listing: case-insensitive equality. */
  predicate SpeciesIs(c: Character, target: string)
    ensures c.species == target ==> SpeciesIs(c, target)
    ensures SpeciesIs(c, target) ==> |c.species| == |target|
  {
    ToLower(c.species) == ToLower(target)
  }

  /** The records whose species equals `target` ignoring case, in record order. */
  function SpeciesMatches(data: seq<Character>, target: string): (r: seq<Character>)
    ensures forall c :: c in r <==> c in data && SpeciesIs(c, target)
    ensures IsSubsequence(r, data)
    ensures |r| <= |data|
  {
    FilterIsSubsequence(data, c => SpeciesIs(c, target));
    Filter(data, c => SpeciesIs(c, target))
  }

  /** The header line of the species listing; it shows the target as given. */
  function SpeciesHeader(target: string): (r: string)
    ensures |r| == 10 + |target| + 13
    ensures r[0] == '\n' && OccursAt(r, target, 10)
  {
    "\nList of '" + target + "' characters:"
  }

  /** The line of the species listing for one record. */
  function SpeciesLine(c: Character): (r: string)
    ensures StartsWith(r, "- ") && OccursAt(r, c.name, 2)
    ensures OccursAt(r, c.status, |c.name| + 4) && r[|r| - 1] == ')'
  {
    "- " + c.name + " (" + c.status + ")"
  }

  /** What `show_characters_by_species(target)` prints: the header, even when
      nothing matches, then one line per matching record in record order. */
  function SpeciesListing(data: seq<Character>, target: string): (out: seq<string>)
    ensures |out| == 1 + |SpeciesMatches(data, target)|
    ensures out[0] == SpeciesHeader(target)
    ensures forall i :: 0 <= i < |SpeciesMatches(data, target)| ==>
              out[i + 1] == SpeciesLine(SpeciesMatches(data, target)[i])
  {
    var m := SpeciesMatches(data, target);
    [SpeciesHeader(target)] + seq(|m|, i requires 0 <= i < |m| => SpeciesLine(m[i]))
  }

  /** The species matches depend only on the lower-cased target. */
  lemma SpeciesCaseInsensitive(data: seq<Character>, t1: string, t2: string)
    requires ToLower(t1) == ToLower(t2)
    ensures SpeciesMatches(data, t1) == SpeciesMatches(data, t2)
    ensures SpeciesListing(data, t1)[1..] == SpeciesListing(data, t2)[1..]
  {
    FilterExtensional(data, c => SpeciesIs(c, t1), c => SpeciesIs(c, t2));
  }

  /** "Human", "human" and "HUMAN" select the same records. */
  lemma HumanAnyCase(data: seq<Character>)
    ensures SpeciesMatches(data, "human") == SpeciesMatches(data, "Human")
    ensures SpeciesMatches(data, "HUMAN") == SpeciesMatches(data, "Human")
  {
    assert ToLower("Human") == "human";
    assert ToLower("human") == "human";
    assert ToLower("HUMAN") == "human";
    SpeciesCaseInsensitive(data, "human", "Human");
    SpeciesCaseInsensitive(data, "HUMAN", "Human");
  }

  /** The species matches are the one longest subsequence of the records
      whose species all equal the target ignoring case. */
  lemma {:induction false} SpeciesMatchesUnique(data: seq<Character>, target: string, r: seq<Character>)
    requires IsSubsequence(r, data)
    requires forall i :: 0 <= i < |r| ==> SpeciesIs(r[i], target)
    requires |r| >= |SpeciesMatches(data, target)|
    ensures r == SpeciesMatches(data, target)
  {
    FilterUnique(r, data, c => SpeciesIs(c, target));
  }

  // ---------------------------------------------------------------------
  // Name search

  /** The name test of the search: case-insensitive substring. */
  predicate NameHas(c: Character, term: string)
    ensures term == "" ==> NameHas(c, term)
    ensures c.name == term ==> NameHas(c, term)
    ensures NameHas(c, term) ==> |term| <= |c.name|
  {
    assert ToLower(c.name)[..|ToLower(c.name)|] == ToLower(c.name);
    Contains(ToLower(c.name), ToLower(term))
  }

  /** The records whose name contains `term` ignoring case, in record order. */
  function NameMatches(data: seq<Character>, term: string): (r: seq<Character>)
    ensures forall c :: c in r <==> c in data && NameHas(c, term)
    ensures IsSubsequence(r, data)
    ensures |r| <= |data|
  {
    FilterIsSubsequence(data, c => NameHas(c, term));
    Filter(data, c => NameHas(c, term))
  }

  /** The name matches are the one longest subsequence of the records
      whose names all contain the term ignoring case. */
  lemma {:induction false} NameMatchesUnique(data: seq<Character>, term: string, r: seq<Character>)
    requires IsSubsequence(r, data)
    requires forall i :: 0 <= i < |r| ==> NameHas(r[i], term)
    requires |r| >= |NameMatches(data, term)|
    ensures r == NameMatches(data, term)
  {
    FilterUnique(r, data, c => NameHas(c, term));
  }

  /** The search looks at the records one at a time, from the first. */
  lemma NameMatchesCons(c: Character, rest: seq<Character>, term: string)
    ensures NameMatches([c] + rest, term) ==
              (if NameHas(c, term) then [c] else []) + NameMatches(rest, term)
  {
    assert ([c] + rest)[1..] == rest;
  }

  /** The line printed when the search finds nothing. */
  function NotFoundLine(term: string): (r: string)
    ensures |r| == 26 + |term| + 16
    ensures r[0] == 'N' && OccursAt(r, term, 26)
  {
    "No characters found with '" + term + "' in their name."
  }

  /** The header line of a search that found something. */
  function NameHeader(term: string): (r: string)
    ensures |r| == 24 + |term| + 16
    ensures r[0] == '\n' && OccursAt(r, term, 24)
  {
    "\nCharacters containing '" + term + "' in their name:"
  }

  /** The line of the search output for one record. */
  function NameLine(c: Character): (r: string)
    ensures StartsWith(r, "- ") && OccursAt(r, c.name, 2)
    ensures OccursAt(r, c.species, |c.name| + 4) && r[|r| - 1] == ')'
  {
    "- " + c.name + " (" + c.species + ")"
  }

  /** What `find_characters_by_name(term)` prints: the not-found line alone
      when nothing matches; otherwise the header, then one line per matching
      record in record order. */
  function NameReport(data: seq<Character>, term: string): (out: seq<string>)
    ensures |NameMatches(data, term)| == 0 ==> out == [NotFoundLine(term)]
    ensures |NameMatches(data, term)| > 0 ==>
              |out| == 1 + |NameMatches(data, term)| && out[0] == NameHeader(term) &&
              forall i :: 0 <= i < |NameMatches(data, term)| ==>
                out[i + 1] == NameLine(NameMatches(data, term)[i])
  {
    var m := NameMatches(data, term);
    if |m| == 0 then [NotFoundLine(term)]
    else [NameHeader(term)] + seq(|m|, i requires 0 <= i < |m| => NameLine(m[i]))
  }

  /** The search output starts with its header exactly when some record
      matches; the not-found output has neither header nor record lines. */
  lemma NameReportHeader(data: seq<Character>, term: string)
    ensures NameReport(data, term)[0] == NameHeader(term) <==> |NameMatches(data, term)| > 0
    ensures |NameMatches(data, term)| == 0 <==>
              forall i :: 0 <= i < |NameReport(data, term)| ==>
                NameReport(data, term)[i] != NameHeader(term) &&
                forall c :: NameReport(data, term)[i] != NameLine(c)
  {
    var m := NameMatches(data, term);
    assert NotFoundLine(term)[0] == 'N';
    assert NameHeader(term)[0] == '\n';
    forall c ensures NotFoundLine(term) != NameLine(c) {
      assert NameLine(c)[0] == '-';
    }
    if |m| > 0 {
      assert NameReport(data, term)[1] == NameLine(m[0]);
    }
  }

  /** An empty search term matches every record. */
  lemma EmptyTermMatchesAll(data: seq<Character>)
    ensures NameMatches(data, "") == data
  {
    assert ToLower("") == "";
    forall i | 0 <= i < |data| ensures NameHas(data[i], "") {
      ContainsEmpty(ToLower(data[i].name));
    }
    FilterAll(data, c => NameHas(c, ""));
  }

  /** A record matches exactly when its lower-cased name has the lower-cased
      term at some position. */
  lemma NameMatchesAt(data: seq<Character>, term: string, c: Character)
    ensures c in NameMatches(data, term) <==>
              c in data && exists i :: OccursAt(ToLower(c.name), ToLower(term), i)
  {
    ContainsIff(ToLower(c.name), ToLower(term));
  }

  /** The name matches depend only on the lower-cased term. */
  lemma NameCaseInsensitive(data: seq<Character>, t1: string, t2: string)
    requires ToLower(t1) == ToLower(t2)
    ensures NameMatches(data, t1) == NameMatches(data, t2)
  {
    FilterExtensional(data, c => NameHas(c, t1), c => NameHas(c, t2));
  }

  // ---------------------------------------------------------------------
  // Default report

  /** The printed lines as report output. */
  function PrintedLines(lines: seq<string>): (r: seq<Output>)
    ensures |r| == |lines|
    ensures forall i :: 0 <= i < |lines| ==> r[i] == Printed(lines[i])
  {
    seq(|lines|, i requires 0 <= i < |lines| => Printed(lines[i]))
  }

  /** `process_data`: the status chart, then the listing of species "Human",
      then the search for "Morty". */
  function ProcessData(data: seq<Character>): (out: seq<Output>)
    ensures |out| == 1 + |SpeciesListing(data, "Human")| + |NameReport(data, "Morty")|
    ensures out[0] == Chart(StatusDistribution(data))
    ensures forall i :: 0 <= i < |SpeciesListing(data, "Human")| ==>
              out[1 + i] == Printed(SpeciesListing(data, "Human")[i])
    ensures forall i :: 0 <= i < |NameReport(data, "Morty")| ==>
              out[1 + |SpeciesListing(data, "Human")| + i] == Printed(NameReport(data, "Morty")[i])
  {
    var species := SpeciesListing(data, "Human");
    var names := NameReport(data, "Morty");
    var out := [Chart(StatusDistribution(data))] + PrintedLines(species) + PrintedLines(names);
    assert forall i :: 0 <= i < |species| ==> out[1 + i] == PrintedLines(species)[i];
    assert forall i :: 0 <= i < |names| ==> out[1 + |species| + i] == PrintedLines(names)[i];
    out
  }

  /** The default report has one bar per distinct status, the chart before
      every printed line, and the "Human" listing's header as its first
      printed line, whatever the records. */
  lemma ProcessDataShape(data: seq<Character>)
    ensures |ProcessData(data)| >= 3
    ensures ProcessData(data)[0].Chart?
    ensures forall i :: 1 <= i < |ProcessData(data)| ==> ProcessData(data)[i].Printed?
    ensures |ProcessData(data)[0].bars| <= |data|
  {
    DistinctKeysBound(data);
    var out := ProcessData(data);
    var n := |SpeciesListing(data, "Human")|;
    forall i | 1 <= i < |out| ensures out[i].Printed? {
      if i < 1 + n {
        assert out[1 + (i - 1)] == Printed(SpeciesListing(data, "Human")[i - 1]);
      } else {
        assert out[1 + n + (i - 1 - n)] == Printed(NameReport(data, "Morty")[i - 1 - n]);
      }
    }
  }

  /** The status distribution has at most one bar per record. */
  lemma DistinctKeysBound(data: seq<Character>)
    ensures |StatusDistribution(data)| <= |data|
  {
    TotalBound(StatusDistribution(data));
  }

  /** With every count positive, there are no more entries than the total. */
  lemma {:induction false} TotalBound(d: seq<Entry<string>>)
    requires forall i :: 0 <= i < |d| ==> d[i].count > 0
    ensures |d| <= Total(d)
    decreases |d|
  {
    if |d| > 0 {
      TotalBound(d[1..]);
    }
  }
}
