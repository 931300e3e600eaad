/** File-name handling in `load_race_data` (race_analysis_app.py): which
    files are read, how a name becomes an event key and a category, and the
    nested event -> category -> table map they fill. */
module RaceFiles {
  import opened Wrappers
  import opened Text

  const Processed: string := "_processed"
  const ProcessedCsv: string := "_processed.csv"
  const DoubleProcessedCsv: string := "_processed_processed.csv"

  predicate EndsWith(s: string, suffix: string) {
    |suffix| <= |s| && s[|s| - |suffix|..] == suffix
  }

  /** Picked by the glob `*_processed.csv` and kept by the double-processed filter. */
  predicate Candidate(name: string) {
    EndsWith(name, ProcessedCsv) && !EndsWith(name, DoubleProcessedCsv)
  }

  /** `Path.stem` of a candidate: the name without its final ".csv". */
  function Stem(name: string): (r: string)
    requires EndsWith(name, ProcessedCsv)
    ensures r + ".csv" == name
  {
    name[..|name| - 4]
  }

  /** `str.replace(pat, '')`: removes every non-overlapping occurrence of `pat`,
      scanning left to right. */
  function RemoveAll(s: string, pat: string): (r: string)
    requires |pat| > 0
    ensures |r| <= |s|
    decreases |s|
  {
    if |s| < |pat| then s
    else if s[..|pat|] == pat then RemoveAll(s[|pat|..], pat)
    else [s[0]] + RemoveAll(s[1..], pat)
  }

  predicate NoOccurrence(pat: string, s: string) {
    forall i | 0 <= i <= |s| :: !OccursAt(pat, s, i)
  }

  /** A string with no occurrence of `pat` is left as it is. */
  lemma {:induction false} RemoveAllAbsent(s: string, pat: string)
    requires |pat| > 0 && NoOccurrence(pat, s)
    ensures RemoveAll(s, pat) == s
    decreases |s|
  {
    if |s| >= |pat| {
      assert !OccursAt(pat, s, 0);
      assert NoOccurrence(pat, s[1..]) by {
        forall i | 0 <= i <= |s[1..]| ensures !OccursAt(pat, s[1..], i) {
          assert !OccursAt(pat, s, i + 1);
        }
      }
      RemoveAllAbsent(s[1..], pat);
    }
  }

  /** Appending "_processed" to a string that does not contain it and removing
      every occurrence gives the string back; no occurrence can straddle the
      seam, because '_' appears in "_processed" only at its start. */
  lemma {:induction false} RemoveProcessedSuffix(x: string)
    requires NoOccurrence(Processed, x)
    ensures RemoveAll(x + Processed, Processed) == x
    decreases |x|
  {
    var s := x + Processed;
    if x == [] {
      assert s[..|Processed|] == Processed;
      assert s[|Processed|..] == [];
    } else {
      if |x| >= |Processed| {
        assert x[0..|Processed|] == s[..|Processed|];
        assert !OccursAt(Processed, x, 0);
      } else {
        assert s[|x|] == '_' != Processed[|x|];
      }
      assert NoOccurrence(Processed, x[1..]) by {
        forall i | 0 <= i <= |x[1..]| ensures !OccursAt(Processed, x[1..], i) {
          assert !OccursAt(Processed, x, i + 1);
        }
      }
      assert s[1..] == x[1..] + Processed;
      RemoveProcessedSuffix(x[1..]);
    }
  }

  predicate NoNewline(s: string) {
    forall i :: 0 <= i < |s| ==> s[i] != '\n'
  }

  /** `_` + eight digits + `_` at position `j`, with at least one character after. */
  predicate DatedSplitAt(t: string, j: int) {
    0 <= j && j + 10 < |t| && t[j] == '_' && AllDigits(t[j + 1..j + 9]) && t[j + 9] == '_'
  }

  /** `(.+)_(\d{8})_(.+)` can match with group 1 = `stem[..i]`: group 1 and the
      first character of group 3 are non-empty runs of non-newline characters. */
  predicate ValidSplit(stem: string, i: int) {
    1 <= i && DatedSplitAt(stem, i) && NoNewline(stem[..i]) && stem[i + 10] != '\n'
  }

  /** The greedy `(.+)` backtracks from the longest group 1: the largest valid
      split at or below `i`. */
  function FindSplit(stem: string, i: int): (r: Option<nat>)
    requires i <= |stem|
    ensures r.Some? ==> r.value <= i && ValidSplit(stem, r.value) &&
                        forall j :: r.value < j <= i ==> !ValidSplit(stem, j)
    ensures r.None? ==> forall j :: j <= i ==> !ValidSplit(stem, j)
    decreases i
  {
    if i < 1 then None
    else if ValidSplit(stem, i) then Some(i)
    else FindSplit(stem, i - 1)
  }

  /** End of the non-newline run starting at `from`: where greedy `(.+)` stops. */
  function LineEnd(s: string, from: nat): (e: nat)
    requires from <= |s|
    ensures from <= e <= |s| && NoNewline(s[from..e]) && (e < |s| ==> s[e] == '\n')
    decreases |s| - from
  {
    if from == |s| || s[from] == '\n' then from else LineEnd(s, from + 1)
  }

  /** The three groups of a successful match. */
  datatype Match = Match(event: string, date: string, category: string)

  /** `re.match(r'(.+)_(\d{8})_(.+)', stem)`: anchored at the start only. */
  function MatchStem(stem: string): (m: Option<Match>)
    ensures m.None? <==> forall i :: !ValidSplit(stem, i)
    ensures m.Some? ==>
      var e := m.value.event;
      && |e| >= 1 && NoNewline(e)
      && |m.value.date| == 8 && AllDigits(m.value.date)
      && |m.value.category| >= 1 && NoNewline(m.value.category)
      && (forall j :: |e| < j ==> !ValidSplit(stem, j))
      && var consumed := e + "_" + m.value.date + "_" + m.value.category;
         |consumed| <= |stem| && stem[..|consumed|] == consumed &&
         (|consumed| < |stem| ==> stem[|consumed|] == '\n')
  {
    match FindSplit(stem, |stem|)
    case None => None
    case Some(k) =>
      var e := LineEnd(stem, k + 10);
      var m := Match(stem[..k], stem[k + 1..k + 9], stem[k + 10..e]);
      assert stem[k..k + 1] == "_" && stem[k + 9..k + 10] == "_";
      assert stem[..e] == stem[..k] + stem[k..k + 1] + stem[k + 1..k + 9] + stem[k + 9..k + 10] + stem[k + 10..e];
      assert stem[..e] == m.event + "_" + m.date + "_" + m.category;
      Some(m)
  }

  /** A stem built as event_date_category matches back to those three parts,
      provided the event and category have no line break, the date is eight
      digits, and the category does not itself offer a later `_dddddddd_` split
      (otherwise the greedy event group would reach past the date). */
  lemma StemRoundTrip(event: string, date: string, category: string)
    requires |event| >= 1 && NoNewline(event)
    requires |date| == 8 && AllDigits(date)
    requires |category| >= 1 && NoNewline(category)
    requires forall j :: !DatedSplitAt("_" + category, j)
    ensures MatchStem(event + "_" + date + "_" + category) == Some(Match(event, date, category))
  {
    var stem := event + "_" + date + "_" + category;
    var n := |event|;
    StemFields(event, date, category);
    assert FindSplit(stem, |stem|) == Some(n) by {
      assert ValidSplit(stem, n);
      forall j | n < j ensures !ValidSplit(stem, j) {
        NoLaterSplit(event, date, category, j);
      }
    }
    var e := LineEnd(stem, n + 10);
    assert e == |stem|;
    assert stem[n + 10..e] == category;
    assert MatchStem(stem) == Some(Match(stem[..n], stem[n + 1..n + 9], stem[n + 10..e]));
  }

  /** Where the three parts of `event_date_category` sit. */
  lemma StemFields(event: string, date: string, category: string)
    requires |date| == 8
    ensures var stem := event + "_" + date + "_" + category;
      var n := |event|;
      && |stem| == n + 10 + |category| && stem[n] == '_' && stem[n + 9] == '_'
      && stem[..n] == event && stem[n + 1..n + 9] == date && stem[n + 10..] == category
  {
    var a := event + "_";
    var b := a + date;
    var c := b + "_";
    var stem := c + category;
    assert stem[..|c|] == c && stem[|c|..] == category;
    assert c[..|b|] == b && b[..|a|] == a && b[|a|..] == date && a[..|event|] == event;
    assert stem[..|event|] == event by {
      assert stem[..|event|] == stem[..|c|][..|b|][..|a|][..|event|];
    }
    assert stem[|a|..|b|] == date by {
      assert stem[|a|..|b|] == stem[..|c|][..|b|][|a|..];
    }
  }

  lemma NoLaterSplit(event: string, date: string, category: string, j: int)
    requires |date| == 8 && AllDigits(date)
    requires forall j :: !DatedSplitAt("_" + category, j)
    requires |event| < j
    ensures !DatedSplitAt(event + "_" + date + "_" + category, j)
  {
    var stem := event + "_" + date + "_" + category;
    var n := |event|;
    if j < n + 9 {
      assert stem[j] == date[j - n - 1];
    } else if DatedSplitAt(stem, j) {
      var t := stem[n + 9..];
      assert t == "_" + category;
      assert t[j - n - 9 + 1..j - n - 9 + 9] == stem[j + 1..j + 9];
      assert DatedSplitAt(t, j - n - 9);
    }
  }

  /** With two dated splits the greedy event group takes the later one. */
  lemma GreedyExample()
    ensures MatchStem("A_20240101_B_20240202_C") == Some(Match("A_20240101_B", "20240202", "C"))
  {
    var event, date, category := "A_20240101_B", "20240202", "C";
    assert event + "_" + date + "_" + category == "A_20240101_B_20240202_C";
    assert AllDigits(date);
    assert NoNewline(event) && NoNewline(category);
    StemRoundTrip(event, date, category);
  }

  /** `f"{event_name} ({date[:4]}-{date[4:6]}-{date[6:]})"`. */
  function EventKey(event: string, date: string): (key: string)
    requires |date| == 8
    ensures |key| == |event| + 13
    ensures key == event + " (" + date[..4] + "-" + date[4..6] + "-" + date[6..] + ")"
  {
    event + " (" + date[..4] + "-" + date[4..6] + "-" + date[6..] + ")"
  }

  /** The event name recovered from a key: all but the 13-character date suffix. */
  function KeyEvent(key: string): string
    requires |key| >= 13
  {
    key[..|key| - 13]
  }

  /** The eight date digits recovered from the " (YYYY-MM-DD)" suffix. */
  function KeyDate(key: string): string
    requires |key| >= 13
  {
    key[|key| - 11..|key| - 7] + key[|key| - 6..|key| - 4] + key[|key| - 3..|key| - 1]
  }

  /** A key determines its event name and date, so distinct (event, date)
      pairs never share a key. */
  lemma EventKeyRoundTrip(event: string, date: string)
    requires |date| == 8
    ensures KeyEvent(EventKey(event, date)) == event
    ensures KeyDate(EventKey(event, date)) == date
  {
    var key := EventKey(event, date);
    var n := |event|;
    assert key[n + 2..n + 6] == date[..4];
    assert key[n + 7..n + 9] == date[4..6];
    assert key[n + 10..n + 12] == date[6..];
    assert date == date[..4] + date[4..6] + date[6..];
  }

  lemma EventKeyInjective(e1: string, d1: string, e2: string, d2: string)
    requires |d1| == 8 && |d2| == 8
    requires EventKey(e1, d1) == EventKey(e2, d2)
    ensures e1 == e2 && d1 == d2
  {
    EventKeyRoundTrip(e1, d1);
    EventKeyRoundTrip(e2, d2);
  }

  /** What one file contributes: its event key and category, or nothing when it
      is not a candidate or its stem does not match. */
  function ParseName(name: string): Option<(string, string)> {
    if !Candidate(name) then None
    else match MatchStem(RemoveAll(Stem(name), Processed))
      case None => None
      case Some(m) => Some((EventKey(m.event, m.date), m.category))
  }

  /** A candidate whose stem, once "_processed" is removed, offers no
      `_dddddddd_` split is skipped without complaint. */
  lemma UnmatchedSkipped(name: string)
    requires EndsWith(name, ProcessedCsv)
    requires forall i :: !ValidSplit(RemoveAll(Stem(name), Processed), i)
    ensures ParseName(name).None?
  {
  }

  /** A double-processed file never contributes. */
  lemma DoubleProcessedSkipped(name: string)
    requires EndsWith(name, DoubleProcessedCsv)
    ensures ParseName(name).None?
  {
  }

  /** The conventional name `event_YYYYMMDD_category_processed.csv` is read back
      as the key `event (YYYY-MM-DD)` and the category, under the conditions of
      `StemRoundTrip` and provided "_processed" does not already occur in it. */
  lemma NameRoundTrip(event: string, date: string, category: string)
    requires |event| >= 1 && NoNewline(event)
    requires |date| == 8 && AllDigits(date)
    requires |category| >= 1 && NoNewline(category)
    requires forall j :: !DatedSplitAt("_" + category, j)
    requires NoOccurrence(Processed, event + "_" + date + "_" + category)
    ensures ParseName(event + "_" + date + "_" + category + ProcessedCsv)
         == Some((EventKey(event, date), category))
  {
    var x := event + "_" + date + "_" + category;
    ProcessedName(x);
    RemoveProcessedSuffix(x);
    StemRoundTrip(event, date, category);
  }

  /** Appending "_processed.csv" to a name without "_processed" in it gives a
      candidate whose stem ends in "_processed". */
  lemma ProcessedName(x: string)
    requires NoOccurrence(Processed, x)
    ensures Candidate(x + ProcessedCsv)
    ensures Stem(x + ProcessedCsv) == x + Processed
  {
    var name := x + ProcessedCsv;
    assert name[|name| - |ProcessedCsv|..] == ProcessedCsv;
    if |x| >= 10 {
      var before := x[|x| - 10..];
      assert !OccursAt(Processed, x, |x| - 10);
      assert before != Processed;
      assert name[|name| - 24..] == before + ProcessedCsv;
      assert (before + ProcessedCsv)[..10] == before;
      assert DoubleProcessedCsv[..10] == Processed;
    }
  }

  /** `data_dict[event_date][category] = df`, creating the inner map on first use. */
  function Store<T>(data: map<string, map<string, T>>, key: string, category: string, table: T)
    : (r: map<string, map<string, T>>)
    ensures r.Keys == data.Keys + {key}
    ensures r[key].Keys == (if key in data then data[key].Keys else {}) + {category}
    ensures r[key][category] == table
    ensures forall c :: c in r[key] && c != category ==> r[key][c] == data[key][c]
    ensures forall k :: k in data && k != key ==> r[k] == data[k]
  {
    var inner := if key in data then data[key] else map[];
    data[key := inner[category := table]]
  }

  /** After a store, the entries are the old ones plus the stored pair. */
  lemma StoreEntries<T>(data: map<string, map<string, T>>, k: string, c: string, table: T,
                        key: string, category: string)
    ensures var r := Store(data, k, c, table);
      (key in r && category in r[key]) <==>
      ((key, category) == (k, c) || (key in data && category in data[key]))
  {
  }

  /** The nested map filled from (parsed name, table) pairs in order: pairs
      whose name did not parse are skipped, later pairs overwrite earlier ones. */
  function Fill<T>(entries: seq<(Option<(string, string)>, T)>): map<string, map<string, T>> {
    if entries == [] then map[]
    else
      var last := entries[|entries| - 1];
      var data := Fill(entries[..|entries| - 1]);
      match last.0
      case None => data
      case Some(kc) => Store(data, kc.0, kc.1, last.1)
  }

  /** Each file's name parsed, next to the table read from it. */
  function Parsed<T>(files: seq<(string, T)>): (r: seq<(Option<(string, string)>, T)>)
    ensures |r| == |files|
    ensures forall i :: 0 <= i < |files| ==> r[i] == (ParseName(files[i].0), files[i].1)
  {
    seq(|files|, i requires 0 <= i < |files| => (ParseName(files[i].0), files[i].1))
  }

  /** The map `load_race_data` returns for the files in glob order, each file
      paired with the table read from it. */
  function Catalog<T>(files: seq<(string, T)>): map<string, map<string, T>> {
    Fill(Parsed(files))
  }

  /** `load_race_data` over the files already found and read: a loop filling
      the nested map in place. */
  method LoadRaceData<T>(files: seq<(string, T)>) returns (data: map<string, map<string, T>>)
    ensures data == Catalog(files)
  {
    ghost var entries := Parsed(files);
    data := map[];
    for i := 0 to |files|
      invariant data == Fill(entries[..i])
    {
      assert entries[..i + 1][..i] == entries[..i];
      var (name, table) := files[i];
      match ParseName(name) {
        case None =>
        case Some(kc) =>
          var (key, category) := kc;
          var inner := if key in data then data[key] else map[];
          data := data[key := inner[category := table]];
      }
    }
    assert entries[..|files|] == entries;
  }

  /** Some pair in `entries` carries (`key`, `category`). */
  predicate Carries<T>(entries: seq<(Option<(string, string)>, T)>, key: string, category: string) {
    exists i :: 0 <= i < |entries| && entries[i].0 == Some((key, category))
  }

  /** Some file in `files` parses to (`key`, `category`). */
  predicate Provides<T>(files: seq<(string, T)>, key: string, category: string) {
    exists i :: 0 <= i < |files| && ParseName(files[i].0) == Some((key, category))
  }

  /** The filled map holds (key, category) exactly when some pair carries it. */
  lemma {:induction false} FillEntries<T>(entries: seq<(Option<(string, string)>, T)>, key: string, category: string)
    ensures var data := Fill(entries);
      (key in data && category in data[key]) <==> Carries(entries, key, category)
  {
    if entries != [] {
      var n := |entries| - 1;
      var init := entries[..n];
      FillEntries(init, key, category);
      CarriesSnoc(init, entries[n]);
      assert init + [entries[n]] == entries;
      var prev := Fill(init);
      var last := entries[n].0;
      if last.Some? {
        StoreEntries(prev, last.value.0, last.value.1, entries[n].1, key, category);
        assert Fill(entries) == Store(prev, last.value.0, last.value.1, entries[n].1);
      } else {
        assert Fill(entries) == prev;
      }
    }
  }

  lemma CarriesSnoc<T>(entries: seq<(Option<(string, string)>, T)>, e: (Option<(string, string)>, T))
    ensures forall key, category :: Carries(entries + [e], key, category) <==>
      Carries(entries, key, category) || e.0 == Some((key, category))
  {
    var all := entries + [e];
    forall key, category | Carries(all, key, category)
      ensures Carries(entries, key, category) || e.0 == Some((key, category))
    {
      var i :| 0 <= i < |all| && all[i].0 == Some((key, category));
      if i < |entries| {
        assert all[i] == entries[i];
      }
    }
    forall key, category | Carries(entries, key, category) ensures Carries(all, key, category) {
      var i :| 0 <= i < |entries| && entries[i].0 == Some((key, category));
      assert all[i] == entries[i];
    }
    forall key, category | e.0 == Some((key, category)) ensures Carries(all, key, category) {
      assert all[|entries|] == e;
    }
  }

  /** The catalog holds an entry for (key, category) exactly when some file
      parses to that pair. */
  lemma CatalogEntries<T>(files: seq<(string, T)>, key: string, category: string)
    ensures var data := Catalog(files);
      (key in data && category in data[key]) <==> Provides(files, key, category)
  {
    FillEntries(Parsed(files), key, category);
    ProvidesCarries(files, key, category);
  }

  /** A file parses to the pair exactly when its parsed entry carries it. */
  lemma ProvidesCarries<T>(files: seq<(string, T)>, key: string, category: string)
    ensures Provides(files, key, category) <==> Carries(Parsed(files), key, category)
  {
    var entries := Parsed(files);
    if Provides(files, key, category) {
      var i :| 0 <= i < |files| && ParseName(files[i].0) == Some((key, category));
      CarriesAt(entries, key, category, i);
    }
    if Carries(entries, key, category) {
      var i :| 0 <= i < |entries| && entries[i].0 == Some((key, category));
      ProvidesAt(files, key, category, i);
    }
  }

  lemma CarriesAt<T>(entries: seq<(Option<(string, string)>, T)>, key: string, category: string, i: int)
    requires 0 <= i < |entries| && entries[i].0 == Some((key, category))
    ensures Carries(entries, key, category)
  {
  }

  lemma ProvidesAt<T>(files: seq<(string, T)>, key: string, category: string, i: int)
    requires 0 <= i < |files| && ParseName(files[i].0) == Some((key, category))
    ensures Provides(files, key, category)
  {
  }

  /** Every key of a filled map has at least one category. */
  lemma {:induction false} FillNoEmptyEvent<T>(entries: seq<(Option<(string, string)>, T)>)
    ensures forall key :: key in Fill(entries) ==> |Fill(entries)[key]| > 0
  {
    if entries != [] {
      FillNoEmptyEvent(entries[..|entries| - 1]);
    }
  }

  /** An event key appears only together with at least one category. */
  lemma CatalogNoEmptyEvent<T>(files: seq<(string, T)>)
    ensures forall key :: key in Catalog(files) ==> |Catalog(files)[key]| > 0
  {
    FillNoEmptyEvent(Parsed(files));
  }

  /** The table filled in under (key, category) is that of the last pair carrying it. */
  lemma {:induction false} FillLastWins<T>(entries: seq<(Option<(string, string)>, T)>, key: string, category: string, i: int)
    requires 0 <= i < |entries| && entries[i].0 == Some((key, category))
    requires forall j :: i < j < |entries| ==> entries[j].0 != Some((key, category))
    ensures key in Fill(entries) && category in Fill(entries)[key]
    ensures Fill(entries)[key][category] == entries[i].1
  {
    var n := |entries| - 1;
    var init := entries[..n];
    if i < n {
      assert init[i] == entries[i];
      forall j | i < j < |init| ensures init[j].0 != Some((key, category)) {
        assert init[j] == entries[j];
      }
      FillLastWins(init, key, category, i);
    }
  }

  /** The table stored under (key, category) is that of the last file that
      parses to the pair: later files overwrite earlier ones. */
  lemma CatalogLastWins<T>(files: seq<(string, T)>, key: string, category: string, i: int)
    requires 0 <= i < |files| && ParseName(files[i].0) == Some((key, category))
    requires forall j :: i < j < |files| ==> ParseName(files[j].0) != Some((key, category))
    ensures key in Catalog(files) && category in Catalog(files)[key]
    ensures Catalog(files)[key][category] == files[i].1
  {
    FillLastWins(Parsed(files), key, category, i);
  }
}
