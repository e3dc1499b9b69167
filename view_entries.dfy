/** The journal's entry organiser (src/components/ViewEntries.jsx): filter the
    fetched entries by mood and by tag, sort them by one of four keys, and
    bucket the result by month and year, plus the small helpers of the
    per-month carousel. */
module ViewEntries {
  import opened Common

  /** The calendar month an entry's date falls in, in the viewer's time zone;
      stands for the "<Month name> <Year>" label `toLocaleDateString` builds. */
  datatype MonthYear = MonthYear(year: int, month: int)

  /** A journal entry as the backend returns it. `date` is represented by the
      instant it denotes (`timestamp`, what `new Date(date).getTime()` gives)
      and by its local calendar month (`monthYear`). `tags` is the raw
      comma-joined tag string. */
  datatype Entry = Entry(
    id: string,
    songTitle: string,
    artist: string,
    link: string,
    image: string,
    journalText: string,
    mood: string,
    tags: string,
    timestamp: int,
    monthYear: MonthYear)

  /** The sentinel option value of both filter drop-downs. */
  const All: string := "all"

  // -----------------------------------------------------------------------
  // Filtering

  /** The predicate both filters together apply: an entry survives when the
      mood filter is "all" or names its mood, and the tag filter is "all" or
      occurs somewhere in its raw tag string. */
  function Keeps(filterByMood: string, filterByTag: string): (keeps: Entry -> bool)
    // with both filters on "all" every entry is kept
    ensures filterByMood == All && filterByTag == All ==> forall e :: keeps(e)
    // a kept entry passes each filter that is not "all"
    ensures forall e :: keeps(e) ==> filterByMood == All || e.mood == filterByMood
    ensures forall e :: keeps(e) ==> filterByTag == All || Contains(e.tags, filterByTag)
  {
    (e: Entry) => (filterByMood == All || e.mood == filterByMood)
      && (filterByTag == All || Contains(e.tags, filterByTag))
  }

  function HasMood(mood: string): Entry -> bool { (e: Entry) => e.mood == mood }

  function HasTag(tag: string): Entry -> bool { (e: Entry) => Contains(e.tags, tag) }

  /** Filtering by one predicate and then another is filtering by both. */
  lemma {:induction false} FilterThenFilter(s: seq<Entry>, p: Entry -> bool, q: Entry -> bool, both: Entry -> bool)
    requires forall e :: both(e) == (p(e) && q(e))
    ensures Filter(Filter(s, p), q) == Filter(s, both)
  {
    if s != [] {
      FilterThenFilter(s[1..], p, q, both);
      FilterAppend(if p(s[0]) then [s[0]] else [], Filter(s[1..], p), q);
    }
  }

  /** The tag filter matches substrings of the raw string, so the filter "rap"
      also keeps an entry tagged only "trap". */
  lemma TagFilterMatchesInsideLongerTag(e: Entry)
    requires e.tags == "trap"
    ensures Keeps(All, "rap")(e)
  {
    ContainsAt(e.tags, "rap", 1);
  }

  // -----------------------------------------------------------------------
  // Sorting

  /** `String.prototype.localeCompare`, abstracted as code-point
      lexicographic order: negative, zero or positive as `a` sorts before,
      together with, or after `b`. The proofs below use only that it is
      antisymmetric and transitive, that is, a total order. */
  function LocaleCompare(a: string, b: string): (r: int)
    ensures -1 <= r <= 1
    // the first differing character decides
    ensures a != [] && b != [] && a[0] != b[0] ==> (r < 0 <==> a[0] < b[0]) && r != 0
    // a proper prefix sorts first
    ensures |a| < |b| && a == b[..|a|] ==> r == -1
  {
    if a == [] && b == [] then 0
    else if a == [] then -1
    else if b == [] then 1
    else if a[0] < b[0] then -1
    else if a[0] > b[0] then 1
    else LocaleCompare(a[1..], b[1..])
  }

  lemma {:induction false} LocaleCompareAntisymmetric(a: string, b: string)
    ensures LocaleCompare(b, a) == -LocaleCompare(a, b)
  {
    if a != [] && b != [] && a[0] == b[0] {
      LocaleCompareAntisymmetric(a[1..], b[1..]);
    }
  }

  lemma {:induction false} LocaleCompareTransitive(a: string, b: string, c: string)
    requires LocaleCompare(a, b) <= 0 && LocaleCompare(b, c) <= 0
    ensures LocaleCompare(a, c) <= 0
  {
    if a != [] && b != [] && c != [] && a[0] == b[0] == c[0] {
      LocaleCompareTransitive(a[1..], b[1..], c[1..]);
    }
  }

  lemma {:induction false} LocaleCompareZero(a: string, b: string)
    ensures LocaleCompare(a, b) == 0 <==> a == b
  {
    if a != [] && b != [] && a[0] == b[0] {
      LocaleCompareZero(a[1..], b[1..]);
      assert a == [a[0]] + a[1..] && b == [b[0]] + b[1..];
    }
  }

  /** The comparator handed to `Array.prototype.sort`: negative when `a`
      belongs before `b`. An unknown key compares everything as equal. */
  function Compare(sortBy: string, a: Entry, b: Entry): (r: int)
    ensures sortBy == "newest" ==> (r < 0 <==> a.timestamp > b.timestamp) && (r == 0 <==> a.timestamp == b.timestamp)
    ensures sortBy == "oldest" ==> (r < 0 <==> a.timestamp < b.timestamp) && (r == 0 <==> a.timestamp == b.timestamp)
    // the text keys give -1, 0 or 1 (zero exactly on equal text, LocaleCompareZero)
    ensures sortBy == "title" || sortBy == "artist" ==> -1 <= r <= 1
    ensures !IsSortKey(sortBy) ==> r == 0
  {
    if sortBy == "newest" then b.timestamp - a.timestamp
    else if sortBy == "oldest" then a.timestamp - b.timestamp
    else if sortBy == "title" then LocaleCompare(a.songTitle, b.songTitle)
    else if sortBy == "artist" then LocaleCompare(a.artist, b.artist)
    else 0
  }

  predicate IsSortKey(sortBy: string)
  {
    sortBy == "newest" || sortBy == "oldest" || sortBy == "title" || sortBy == "artist"
  }

  /** Swapping the arguments negates the comparator. */
  lemma CompareAntisymmetric(sortBy: string, a: Entry, b: Entry)
    ensures Compare(sortBy, b, a) == -Compare(sortBy, a, b)
  {
    LocaleCompareAntisymmetric(a.songTitle, b.songTitle);
    LocaleCompareAntisymmetric(a.artist, b.artist);
  }

  /** "Not after" is transitive for every key. */
  lemma CompareTransitive(sortBy: string, a: Entry, b: Entry, c: Entry)
    requires Compare(sortBy, a, b) <= 0 && Compare(sortBy, b, c) <= 0
    ensures Compare(sortBy, a, c) <= 0
  {
    if sortBy == "title" {
      LocaleCompareTransitive(a.songTitle, b.songTitle, c.songTitle);
    } else if sortBy == "artist" {
      LocaleCompareTransitive(a.artist, b.artist, c.artist);
    }
  }

  /** No later element belongs strictly before an earlier one. */
  predicate Sorted(sortBy: string, s: seq<Entry>)
  {
    forall i, j :: 0 <= i < j < |s| ==> Compare(sortBy, s[i], s[j]) <= 0
  }

  /** Places `x` in front of the first element it does not belong after. */
  function Insert(sortBy: string, x: Entry, s: seq<Entry>): (r: seq<Entry>)
    ensures |r| == |s| + 1
  {
    if s == [] then [x]
    else if Compare(sortBy, x, s[0]) > 0 then [s[0]] + Insert(sortBy, x, s[1..])
    else [x] + s
  }

  /** The stable sort that `Array.prototype.sort` performs with `Compare`
      (insertion sort; for a comparator that is a total preorder every
      stable sort gives this same order). */
  function SortEntries(sortBy: string, s: seq<Entry>): (r: seq<Entry>)
    ensures |r| == |s|
  {
    if s == [] then [] else Insert(sortBy, s[0], SortEntries(sortBy, s[1..]))
  }

  lemma {:induction false} InsertPermutes(sortBy: string, x: Entry, s: seq<Entry>)
    ensures multiset(Insert(sortBy, x, s)) == multiset(s) + multiset{x}
  {
    if s != [] && Compare(sortBy, x, s[0]) > 0 {
      InsertPermutes(sortBy, x, s[1..]);
      assert s == [s[0]] + s[1..];
    }
  }

  /** Every element of a list is its head or an element of its tail. */
  lemma InTail(s: seq<Entry>, y: Entry)
    requires y in multiset(s) && s != [] && y != s[0]
    ensures y in multiset(s[1..])
  {
    assert s == [s[0]] + s[1..];
  }

  lemma SortedTail(sortBy: string, s: seq<Entry>)
    requires Sorted(sortBy, s) && s != []
    ensures Sorted(sortBy, s[1..])
  {
    var tail := s[1..];
    forall i, j | 0 <= i < j < |tail| ensures Compare(sortBy, tail[i], tail[j]) <= 0 {
      assert tail[i] == s[i + 1] && tail[j] == s[j + 1];
    }
  }

  /** A list is sorted when its head is not after any later element and its
      tail is sorted. */
  lemma SortedCons(sortBy: string, h: Entry, t: seq<Entry>)
    requires Sorted(sortBy, t)
    requires forall y :: y in multiset(t) ==> Compare(sortBy, h, y) <= 0
    ensures Sorted(sortBy, [h] + t)
  {
    var r := [h] + t;
    forall i, j | 0 <= i < j < |r| ensures Compare(sortBy, r[i], r[j]) <= 0 {
      assert r[j] == t[j - 1];
      assert t[j - 1] in multiset(t);
      if i > 0 {
        assert r[i] == t[i - 1];
      }
    }
  }

  lemma {:induction false} InsertSorted(sortBy: string, x: Entry, s: seq<Entry>)
    requires Sorted(sortBy, s)
    ensures Sorted(sortBy, Insert(sortBy, x, s))
  {
    if s == [] {
    } else if Compare(sortBy, x, s[0]) > 0 {
      var tail := s[1..];
      SortedTail(sortBy, s);
      InsertSorted(sortBy, x, tail);
      HeadBeforeInserted(sortBy, x, s);
      SortedCons(sortBy, s[0], Insert(sortBy, x, tail));
    } else {
      InsertedBeforeAll(sortBy, x, s);
      SortedCons(sortBy, x, s);
    }
  }

  /** When `x` goes after the head, the head still belongs before everything
      that follows it. */
  lemma HeadBeforeInserted(sortBy: string, x: Entry, s: seq<Entry>)
    requires Sorted(sortBy, s) && s != [] && Compare(sortBy, x, s[0]) > 0
    ensures forall y :: y in multiset(Insert(sortBy, x, s[1..])) ==> Compare(sortBy, s[0], y) <= 0
  {
    var tail := s[1..];
    InsertPermutes(sortBy, x, tail);
    forall y | y in multiset(Insert(sortBy, x, tail)) ensures Compare(sortBy, s[0], y) <= 0 {
      if y == x {
        CompareAntisymmetric(sortBy, x, s[0]);
      } else {
        assert y in multiset(tail);
        var k :| 0 <= k < |tail| && tail[k] == y;
        assert s[k + 1] == y;
      }
    }
  }

  /** When `x` does not go after the head of a sorted list, it belongs before
      every element. */
  lemma InsertedBeforeAll(sortBy: string, x: Entry, s: seq<Entry>)
    requires Sorted(sortBy, s) && s != [] && Compare(sortBy, x, s[0]) <= 0
    ensures forall y :: y in multiset(s) ==> Compare(sortBy, x, y) <= 0
  {
    forall y | y in multiset(s) ensures Compare(sortBy, x, y) <= 0 {
      var k :| 0 <= k < |s| && s[k] == y;
      if k > 0 {
        CompareTransitive(sortBy, x, s[0], s[k]);
      }
    }
  }

  /** The sorted list is a permutation of its input, in comparator order. */
  lemma {:induction false} SortEntriesCorrect(sortBy: string, s: seq<Entry>)
    ensures multiset(SortEntries(sortBy, s)) == multiset(s)
    ensures Sorted(sortBy, SortEntries(sortBy, s))
  {
    if s != [] {
      SortEntriesCorrect(sortBy, s[1..]);
      InsertSorted(sortBy, s[0], SortEntries(sortBy, s[1..]));
      InsertPermutes(sortBy, s[0], SortEntries(sortBy, s[1..]));
      assert s == [s[0]] + s[1..];
    }
  }

  /** The entries the comparator ranks together with `x`. */
  function SameKeyAs(sortBy: string, x: Entry): Entry -> bool
  {
    (e: Entry) => Compare(sortBy, e, x) == 0
  }

  lemma {:induction false} InsertStable(sortBy: string, y: Entry, s: seq<Entry>, x: Entry)
    ensures Filter(Insert(sortBy, y, s), SameKeyAs(sortBy, x)) == Filter([y] + s, SameKeyAs(sortBy, x))
  {
    var p := SameKeyAs(sortBy, x);
    if s != [] && Compare(sortBy, y, s[0]) > 0 {
      InsertStable(sortBy, y, s[1..], x);
      var rest := Insert(sortBy, y, s[1..]);
      assert Insert(sortBy, y, s) == [s[0]] + rest;
      assert ([y] + s)[1..] == s;
      assert ([y] + s[1..])[1..] == s[1..];
      if p(y) {
        // s[0] belongs strictly before y, so it cannot rank with x as y does
        if p(s[0]) {
          CompareAntisymmetric(sortBy, s[0], x);
          CompareAntisymmetric(sortBy, y, x);
          CompareTransitive(sortBy, y, x, s[0]);
          assert false;
        }
      }
    }
  }

  /** Stability: among entries the comparator ranks equal, the sorted list
      keeps the input order. */
  lemma {:induction false} SortEntriesStable(sortBy: string, s: seq<Entry>, x: Entry)
    ensures Filter(SortEntries(sortBy, s), SameKeyAs(sortBy, x)) == Filter(s, SameKeyAs(sortBy, x))
  {
    if s != [] {
      SortEntriesStable(sortBy, s[1..], x);
      InsertStable(sortBy, s[0], SortEntries(sortBy, s[1..]), x);
      assert ([s[0]] + SortEntries(sortBy, s[1..]))[1..] == SortEntries(sortBy, s[1..]);
    }
  }

  /** With a key the comparator does not know, it returns 0 for every pair and
      the stable sort leaves the order as it was. */
  lemma {:induction false} SortUnknownKeyKeepsOrder(sortBy: string, s: seq<Entry>)
    requires !IsSortKey(sortBy)
    ensures SortEntries(sortBy, s) == s
  {
    if s != [] {
      SortUnknownKeyKeepsOrder(sortBy, s[1..]);
      assert s == [s[0]] + s[1..];
    }
  }

  /** `filteredAndSortedEntries`: copy the entries, keep those that pass
      the mood filter and then the tag filter, and sort the survivors by
      `sortBy`. The input is a value, so the copy is never observed. */
  method FilteredAndSortedEntries(entries: seq<Entry>, filterByMood: string, filterByTag: string, sortBy: string)
    returns (filtered: seq<Entry>)
    // exactly the surviving entries, each with its multiplicity
    ensures forall e :: multiset(filtered)[e] == if Keeps(filterByMood, filterByTag)(e) then multiset(entries)[e] else 0
    ensures Sorted(sortBy, filtered)
    // entries the key ranks equal keep their relative order from the input
    ensures forall x :: Filter(filtered, SameKeyAs(sortBy, x))
                     == Filter(Filter(entries, Keeps(filterByMood, filterByTag)), SameKeyAs(sortBy, x))
    ensures sortBy == "newest" ==> forall i, j :: 0 <= i < j < |filtered| ==> filtered[i].timestamp >= filtered[j].timestamp
    ensures sortBy == "oldest" ==> forall i, j :: 0 <= i < j < |filtered| ==> filtered[i].timestamp <= filtered[j].timestamp
    ensures sortBy == "title" ==> forall i, j :: 0 <= i < j < |filtered| ==> LocaleCompare(filtered[i].songTitle, filtered[j].songTitle) <= 0
    ensures sortBy == "artist" ==> forall i, j :: 0 <= i < j < |filtered| ==> LocaleCompare(filtered[i].artist, filtered[j].artist) <= 0
    ensures !IsSortKey(sortBy) ==> filtered == Filter(entries, Keeps(filterByMood, filterByTag))
  {
    filtered := entries;
    if filterByMood != All {
      filtered := Filter(filtered, HasMood(filterByMood));
    }
    if filterByTag != All {
      filtered := Filter(filtered, HasTag(filterByTag));
    }
    ghost var survivors := filtered;
    filtered := SortEntries(sortBy, filtered);

    // the two filter steps are one filter with `Keeps`
    var keeps := Keeps(filterByMood, filterByTag);
    if filterByMood != All && filterByTag != All {
      FilterThenFilter(entries, HasMood(filterByMood), HasTag(filterByTag), keeps);
    } else if filterByMood != All {
      FilterThenFilter(entries, HasMood(filterByMood), HasMood(filterByMood), keeps);
      FilterAll(Filter(entries, HasMood(filterByMood)), HasMood(filterByMood));
    } else if filterByTag != All {
      FilterThenFilter(entries, HasTag(filterByTag), HasTag(filterByTag), keeps);
      FilterAll(Filter(entries, HasTag(filterByTag)), HasTag(filterByTag));
    } else {
      FilterAll(entries, keeps);
    }
    assert survivors == Filter(entries, keeps);

    SortEntriesCorrect(sortBy, survivors);
    forall e ensures multiset(filtered)[e] == if keeps(e) then multiset(entries)[e] else 0 {
      FilterCount(entries, keeps, e);
    }
    forall x ensures Filter(filtered, SameKeyAs(sortBy, x)) == Filter(survivors, SameKeyAs(sortBy, x)) {
      SortEntriesStable(sortBy, survivors, x);
    }
    if !IsSortKey(sortBy) {
      SortUnknownKeyKeepsOrder(sortBy, survivors);
    }
  }

  // -----------------------------------------------------------------------
  // Grouping by month

  /** The month groups in the order the JavaScript object was filled
      (insertion order of its keys), and each group's entries. */
  datatype Grouping = Grouping(order: seq<MonthYear>, groups: map<MonthYear, seq<Entry>>)

  function InMonth(k: MonthYear): Entry -> bool { (e: Entry) => e.monthYear == k }

  /** The months of `s` in order of first appearance, each once. */
  function FirstSeen(s: seq<Entry>): (r: seq<MonthYear>)
    ensures |r| <= |s|
    ensures s != [] ==> r != []
  {
    if s == [] then []
    else
      var prev := FirstSeen(s[..|s| - 1]);
      if s[|s| - 1].monthYear in prev then prev else prev + [s[|s| - 1].monthYear]
  }

  /** `order` and `groups` are what the `forEach` has built from `prefix`. */
  ghost predicate GroupsOf(prefix: seq<Entry>, order: seq<MonthYear>, groups: map<MonthYear, seq<Entry>>)
  {
    && order == FirstSeen(prefix)
    && groups.Keys == (set k | k in order)
    && (forall k :: k in groups ==> groups[k] == Filter(prefix, InMonth(k)))
    && (forall k :: k !in groups ==> Filter(prefix, InMonth(k)) == [])
  }

  /** One step of the `forEach` extends what was built by one entry: a
      month met for the first time is listed and given an empty group, and
      the entry is appended to its month's group. */
  lemma GroupStep(prefix: seq<Entry>, entry: Entry, order: seq<MonthYear>, groups: map<MonthYear, seq<Entry>>,
                  order': seq<MonthYear>, groups': map<MonthYear, seq<Entry>>)
    requires GroupsOf(prefix, order, groups)
    requires order' == if entry.monthYear in groups then order else order + [entry.monthYear]
    requires groups' == groups[entry.monthYear := (if entry.monthYear in groups then groups[entry.monthYear] else []) + [entry]]
    ensures GroupsOf(prefix + [entry], order', groups')
  {
    var s := prefix + [entry];
    assert order' == FirstSeen(s) by {
      assert s[..|s| - 1] == prefix && s[|s| - 1] == entry;
      assert entry.monthYear in groups <==> entry.monthYear in order;
    }
    assert groups'.Keys == set k | k in order' by {
      assert entry.monthYear in groups <==> entry.monthYear in order;
    }
    forall k | k in groups' ensures groups'[k] == Filter(s, InMonth(k)) {
      FilterSnoc(prefix, entry, InMonth(k));
    }
    forall k | k !in groups' ensures Filter(s, InMonth(k)) == [] {
      FilterSnoc(prefix, entry, InMonth(k));
    }
  }

  /** `groupedEntries`' `forEach`: create a month's group the first time
      one of its entries is met, then append the entry to its group. */
  /** The loop body of GroupByMonth as written, at index `i`: GroupStep. */
  lemma GroupStepAt(filtered: seq<Entry>, i: nat, order: seq<MonthYear>, groups: map<MonthYear, seq<Entry>>,
                    order': seq<MonthYear>, groups': map<MonthYear, seq<Entry>>)
    requires i < |filtered| && GroupsOf(filtered[..i], order, groups)
    requires var m := filtered[i].monthYear;
      order' == if m in groups then order else order + [m]
    requires var m := filtered[i].monthYear; var g := if m in groups then groups else groups[m := []];
      groups' == g[m := g[m] + [filtered[i]]]
    ensures GroupsOf(filtered[..i + 1], order', groups')
  {
    GroupUpdate(groups, filtered[i], groups');
    SliceSnoc(filtered, i);
    GroupStep(filtered[..i], filtered[i], order, groups, order', groups');
  }

  /** Giving a new month an empty group and then appending is appending to
      the month's group, or to an empty one. */
  lemma GroupUpdate(groups: map<MonthYear, seq<Entry>>, entry: Entry, groups': map<MonthYear, seq<Entry>>)
    requires var m := entry.monthYear; var g := if m in groups then groups else groups[m := []];
      groups' == g[m := g[m] + [entry]]
    ensures groups' == groups[entry.monthYear := (if entry.monthYear in groups then groups[entry.monthYear] else []) + [entry]]
  {
  }

  lemma SliceSnoc(s: seq<Entry>, i: nat)
    requires i < |s|
    ensures s[..i + 1] == s[..i] + [s[i]]
  {
  }

  method GroupByMonth(filtered: seq<Entry>) returns (grouped: Grouping)
    ensures grouped.order == FirstSeen(filtered)
    ensures grouped.groups.Keys == set k | k in grouped.order
    ensures forall k :: k in grouped.groups ==> grouped.groups[k] == Filter(filtered, InMonth(k))
  {
    var order: seq<MonthYear> := [];
    var groups: map<MonthYear, seq<Entry>> := map[];
    for i := 0 to |filtered|
      invariant GroupsOf(filtered[..i], order, groups)
    {
      var entry := filtered[i];
      ghost var order0, groups0 := order, groups;
      var monthYear := entry.monthYear;
      if monthYear !in groups {
        groups := groups[monthYear := []];
        order := order + [monthYear];
      }
      groups := groups[monthYear := groups[monthYear] + [entry]];
      GroupStepAt(filtered, i, order0, groups0, order, groups);
    }
    assert filtered[..|filtered|] == filtered;
    grouped := Grouping(order, groups);
  }

  lemma {:induction false} FilterNone(s: seq<Entry>, p: Entry -> bool)
    requires forall i :: 0 <= i < |s| ==> !p(s[i])
    ensures Filter(s, p) == []
  {
    if s != [] {
      FilterNone(s[1..], p);
    }
  }

  /** A month is listed exactly when some entry falls in it. */
  lemma {:induction false} FirstSeenMembers(s: seq<Entry>, k: MonthYear)
    ensures k in FirstSeen(s) <==> exists i :: 0 <= i < |s| && s[i].monthYear == k
  {
    if s != [] {
      var init := s[..|s| - 1];
      FirstSeenMembers(init, k);
      if exists i :: 0 <= i < |init| && init[i].monthYear == k {
        var i :| 0 <= i < |init| && init[i].monthYear == k;
        assert s[i] == init[i];
      }
      if exists i :: 0 <= i < |s| && s[i].monthYear == k {
        var i :| 0 <= i < |s| && s[i].monthYear == k;
        if i < |init| {
          assert init[i] == s[i];
        }
      }
    }
  }

  /** No month is listed twice. */
  lemma {:induction false} FirstSeenDistinct(s: seq<Entry>)
    ensures Distinct(FirstSeen(s))
  {
    if s != [] {
      FirstSeenDistinct(s[..|s| - 1]);
    }
  }

  /** The first group is the month of the first entry. */
  lemma {:induction false} FirstSeenStartsWithFirstEntry(s: seq<Entry>)
    requires s != []
    ensures FirstSeen(s) != [] && FirstSeen(s)[0] == s[0].monthYear
  {
    if |s| > 1 {
      var init := s[..|s| - 1];
      FirstSeenStartsWithFirstEntry(init);
      assert init[0] == s[0];
    }
  }

  /** Number of entries of `s` in the groups named by `keys`. */
  function GroupedCount(keys: seq<MonthYear>, s: seq<Entry>): nat
  {
    if keys == [] then 0
    else GroupedCount(keys[..|keys| - 1], s) + |Filter(s, InMonth(keys[|keys| - 1]))|
  }

  lemma {:induction false} GroupedCountSnoc(keys: seq<MonthYear>, s: seq<Entry>, x: Entry)
    requires Distinct(keys)
    ensures GroupedCount(keys, s + [x]) == GroupedCount(keys, s) + (if x.monthYear in keys then 1 else 0)
  {
    if keys != [] {
      var init := keys[..|keys| - 1];
      var last := keys[|keys| - 1];
      assert Distinct(init);
      assert last !in init;
      assert x.monthYear in keys <==> x.monthYear in init || x.monthYear == last;
      GroupedCountSnoc(init, s, x);
      FilterSnoc(s, x, InMonth(last));
    }
  }

  /** Grouping loses and duplicates nothing: the groups hold as many entries
      as the list they were built from. */
  lemma {:induction false} GroupsPartitionCount(s: seq<Entry>)
    ensures GroupedCount(FirstSeen(s), s) == |s|
  {
    if s != [] {
      var init := s[..|s| - 1];
      var x := s[|s| - 1];
      var prev := FirstSeen(init);
      assert s == init + [x];
      GroupsPartitionCount(init);
      FirstSeenDistinct(init);
      GroupedCountSnoc(prev, init, x);
      if x.monthYear !in prev {
        assert FirstSeen(s)[..|FirstSeen(s)| - 1] == prev;
        FirstSeenMembers(init, x.monthYear);
        FilterNone(init, InMonth(x.monthYear));
        FilterSnoc(init, x, InMonth(x.monthYear));
      }
    }
  }

  /** A filter of a sorted list is sorted: each group keeps the sorted
      relative order of its entries. */
  lemma {:induction false} FilterKeepsSorted(sortBy: string, s: seq<Entry>, p: Entry -> bool)
    requires Sorted(sortBy, s)
    ensures Sorted(sortBy, Filter(s, p))
  {
    if s != [] {
      var tail := s[1..];
      assert Sorted(sortBy, tail) by {
        forall i, j | 0 <= i < j < |tail| ensures Compare(sortBy, tail[i], tail[j]) <= 0 {
          assert tail[i] == s[i + 1] && tail[j] == s[j + 1];
        }
      }
      FilterKeepsSorted(sortBy, tail, p);
      var rest := Filter(tail, p);
      if p(s[0]) {
        var r := [s[0]] + rest;
        forall i, j | 0 <= i < j < |r| ensures Compare(sortBy, r[i], r[j]) <= 0 {
          assert r[j] == rest[j - 1];
          if i == 0 {
            FilterCount(tail, p, rest[j - 1]);
            assert rest[j - 1] in multiset(rest);
            assert rest[j - 1] in multiset(tail);
            var k :| 0 <= k < |tail| && tail[k] == rest[j - 1];
            assert s[k + 1] == r[j];
          } else {
            assert r[i] == rest[i - 1];
          }
        }
      }
    }
  }

  /** `groupedEntries`: the month groups of `filteredAndSortedEntries`,
      which it also returns. */
  method GroupedEntries(entries: seq<Entry>, filterByMood: string, filterByTag: string, sortBy: string)
    returns (filtered: seq<Entry>, grouped: Grouping)
    // the list that is grouped is `filteredAndSortedEntries`
    ensures forall e :: multiset(filtered)[e] == if Keeps(filterByMood, filterByTag)(e) then multiset(entries)[e] else 0
    ensures Sorted(sortBy, filtered)
    ensures forall x :: Filter(filtered, SameKeyAs(sortBy, x))
                     == Filter(Filter(entries, Keeps(filterByMood, filterByTag)), SameKeyAs(sortBy, x))
    ensures sortBy == "newest" ==> forall i, j :: 0 <= i < j < |filtered| ==> filtered[i].timestamp >= filtered[j].timestamp
    ensures sortBy == "oldest" ==> forall i, j :: 0 <= i < j < |filtered| ==> filtered[i].timestamp <= filtered[j].timestamp
    ensures sortBy == "title" ==> forall i, j :: 0 <= i < j < |filtered| ==> LocaleCompare(filtered[i].songTitle, filtered[j].songTitle) <= 0
    ensures sortBy == "artist" ==> forall i, j :: 0 <= i < j < |filtered| ==> LocaleCompare(filtered[i].artist, filtered[j].artist) <= 0
    ensures !IsSortKey(sortBy) ==> filtered == Filter(entries, Keeps(filterByMood, filterByTag))
    // months in the order the sorted list first reaches them, each group
    // that month's entries in sorted order
    ensures grouped.order == FirstSeen(filtered)
    ensures forall k :: k in grouped.groups ==> grouped.groups[k] == Filter(filtered, InMonth(k))
    // no group at all (the empty state) exactly when no entry survives the filters
    ensures grouped.order == [] <==> Filter(entries, Keeps(filterByMood, filterByTag)) == []
    ensures Distinct(grouped.order)
    ensures grouped.groups.Keys == set k | k in grouped.order
    // each group holds exactly the surviving entries of its month, in sorted order
    ensures forall k, e :: k in grouped.groups ==>
      multiset(grouped.groups[k])[e] == if e.monthYear == k && Keeps(filterByMood, filterByTag)(e) then multiset(entries)[e] else 0
    ensures forall k :: k in grouped.groups ==> Sorted(sortBy, grouped.groups[k])
    // together the groups hold as many entries as survive the filters
    ensures GroupedCount(grouped.order, Filter(entries, Keeps(filterByMood, filterByTag))) == |Filter(entries, Keeps(filterByMood, filterByTag))|
  {
    filtered := FilteredAndSortedEntries(entries, filterByMood, filterByTag, sortBy);
    grouped := GroupByMonth(filtered);

    var survivors := Filter(entries, Keeps(filterByMood, filterByTag));
    FirstSeenDistinct(filtered);
    SurvivorsPermutation(entries, Keeps(filterByMood, filterByTag), filtered);
    if filtered != [] {
      FirstSeenStartsWithFirstEntry(filtered);
    }
    GroupContents(entries, filterByMood, filterByTag, filtered, grouped);
    forall k | k in grouped.groups ensures Sorted(sortBy, grouped.groups[k]) {
      FilterKeepsSorted(sortBy, filtered, InMonth(k));
    }
    GroupsPartitionCount(filtered);
    GroupedCountPermutation(grouped.order, filtered, survivors);
  }

  /** A list holding each surviving entry as often as `entries` does is a
      permutation of the survivors, and as long. */
  lemma SurvivorsPermutation(entries: seq<Entry>, keeps: Entry -> bool, filtered: seq<Entry>)
    requires forall e :: multiset(filtered)[e] == if keeps(e) then multiset(entries)[e] else 0
    ensures multiset(filtered) == multiset(Filter(entries, keeps))
    ensures |filtered| == |Filter(entries, keeps)|
  {
    var survivors := Filter(entries, keeps);
    forall e ensures multiset(filtered)[e] == multiset(survivors)[e] {
      FilterCount(entries, keeps, e);
    }
    assert multiset(filtered) == multiset(survivors);
    assert |multiset(filtered)| == |multiset(survivors)|;
  }

  /** Each month group of the survivors holds exactly that month's survivors. */
  lemma GroupContents(entries: seq<Entry>, filterByMood: string, filterByTag: string, filtered: seq<Entry>, grouped: Grouping)
    requires forall e :: multiset(filtered)[e] == if Keeps(filterByMood, filterByTag)(e) then multiset(entries)[e] else 0
    requires forall k :: k in grouped.groups ==> grouped.groups[k] == Filter(filtered, InMonth(k))
    ensures forall k, e :: k in grouped.groups ==>
      multiset(grouped.groups[k])[e] == if e.monthYear == k && Keeps(filterByMood, filterByTag)(e) then multiset(entries)[e] else 0
  {
    forall k, e | k in grouped.groups
      ensures multiset(grouped.groups[k])[e] == if e.monthYear == k && Keeps(filterByMood, filterByTag)(e) then multiset(entries)[e] else 0
    {
      FilterCount(filtered, InMonth(k), e);
    }
  }

  /** Group sizes depend only on which entries are present, not on their order. */
  lemma {:induction false} GroupedCountPermutation(keys: seq<MonthYear>, s: seq<Entry>, t: seq<Entry>)
    requires multiset(s) == multiset(t)
    ensures GroupedCount(keys, s) == GroupedCount(keys, t)
  {
    if keys != [] {
      var last := keys[|keys| - 1];
      GroupedCountPermutation(keys[..|keys| - 1], s, t);
      FilterSizeByCount(s, t, InMonth(last));
    }
  }

  lemma FilterSizeByCount(s: seq<Entry>, t: seq<Entry>, p: Entry -> bool)
    requires multiset(s) == multiset(t)
    ensures |Filter(s, p)| == |Filter(t, p)|
  {
    var fs, ft := Filter(s, p), Filter(t, p);
    forall e ensures multiset(fs)[e] == multiset(ft)[e] {
      FilterCount(s, p, e);
      FilterCount(t, p, e);
    }
    assert multiset(fs) == multiset(ft);
    assert |multiset(fs)| == |multiset(ft)|;
  }

  // -----------------------------------------------------------------------
  // MonthlySection

  /** `getMoodEmoji`: the face for each of the three moods, a question mark
      for anything else. */
  function MoodEmoji(mood: string): (r: string)
    ensures mood == "happy" <==> r == "\U{1F60A}"
    ensures mood == "sad" <==> r == "\U{1F614}"
    ensures mood == "neutral" <==> r == "\U{1F610}"
    ensures r == "\U{2753}" <==> mood != "happy" && mood != "sad" && mood != "neutral"
  {
    if mood == "happy" then "\U{1F60A}"
    else if mood == "sad" then "\U{1F614}"
    else if mood == "neutral" then "\U{1F610}"
    else "\U{2753}"
  }

  /** Width of a card plus the gap after it, in pixels. */
  const CardWidth: int := 300 + 16

  function Abs(i: int): nat { if i < 0 then -i else i }

  /** The card index `onDragEnd` settles on for a track offset `x`:
      `Math.min(Math.abs(Math.round(x / cardWidth)), entries.length - 1)`.
      The draggable exists only when the section has entries. */
  function DragEndIndex(x: real, count: nat): (r: int)
    requires count > 0
    ensures 0 <= r < count
  {
    Min(Abs(Round(x / CardWidth as real)), count - 1)
  }

  /** The offset `goToSlide(index)` animates the track to. */
  function SlideOffset(index: int): real
  {
    -(index * CardWidth) as real
  }

  /** Releasing the track at the offset of card `i` selects card `i`. */
  lemma DragEndAtSlideOffset(i: nat, count: nat)
    requires i < count
    ensures DragEndIndex(SlideOffset(i), count) == i
  {
    assert SlideOffset(i) / CardWidth as real == -(i as real);
    assert Round(-(i as real)) == -(i as int);
  }
}
