/**
 * The service-history page (client/src/components/history/HistoryPage.tsx): entries grouped by
 * month under a "YYYY-MM" key, groups ordered by key from newest to oldest, and the spending
 * totals, overall and per month.
 */
module HistoryPage {
  import opened Wrappers
  import JsText
  import Calendar
  import opened Types
  import StableSort
  import Sequences

  // ---- Totals ----

  /** `h.totalCost || 0`: an entry without a cost counts as 0. */
  function CostOf(h: ServiceHistory): int {
    match h.totalCost case Some(c) => c case None => 0
  }

  /** `history.reduce((sum, h) => sum + (h.totalCost || 0), 0)`. */
  function TotalSpent(hs: seq<ServiceHistory>): int {
    if hs == [] then 0 else TotalSpent(hs[..|hs| - 1]) + CostOf(hs[|hs| - 1])
  }

  lemma {:induction false} TotalSpentAppend(a: seq<ServiceHistory>, b: seq<ServiceHistory>)
    ensures TotalSpent(a + b) == TotalSpent(a) + TotalSpent(b)
    decreases |b|
  {
    if b == [] {
      assert a + b == a;
    } else {
      assert (a + b)[..|a + b| - 1] == a + b[..|b| - 1];
      TotalSpentAppend(a, b[..|b| - 1]);
    }
  }

  // ---- Month keys ----

  /**
   * `${date.getFullYear()}-${String(date.getMonth() + 1).padStart(2, '0')}`: the year as written by
   * `toString`, then the month in two digits. An invalid date gives `NaN` for both, so "NaN-NaN".
   */
  function MonthKey(serviceDate: string): string {
    match Calendar.ParseIsoDate(serviceDate)
    case None => "NaN-NaN"
    case Some(c) => KeyOf(c)
  }

  /** The key of a valid date. */
  function KeyOf(c: Calendar.CivilDate): string
    requires 1 <= c.month <= 12
  {
    JsText.IntToString(c.year) + ("-" + Calendar.PadDigits(c.month, 2))
  }

  /** The heading's `const [year, month] = monthKey.split('-')` and its two `parseInt`s. */
  function KeyFields(key: string): (Option<int>, Option<int>) {
    var parts := JsText.Split(key, '-');
    (JsText.ParseInt(parts[0]), if |parts| > 1 then JsText.ParseInt(parts[1]) else None)
  }

  /**
   * The heading reads back the year and month the key was made from; the key of an invalid
   * date reads back as two `NaN`s.
   */
  lemma KeyFieldsOfMonthKey(serviceDate: string)
    ensures match Calendar.ParseIsoDate(serviceDate)
      case Some(c) => KeyFields(MonthKey(serviceDate)) == (Some(c.year), Some(c.month))
      case None => KeyFields(MonthKey(serviceDate)) == (None, None)
  {
    match Calendar.ParseIsoDate(serviceDate)
    case None => KeyFieldsOfNaN();
    case Some(c) => KeyFieldsOfKeyOf(c);
  }

  lemma KeyFieldsOfNaN()
    ensures KeyFields("NaN-NaN") == (None, None)
  {
    var parts := ["NaN", "NaN"];
    assert JsText.Join(parts, "-") == "NaN-NaN" by {
      assert parts[1..] == ["NaN"];
    }
    JsText.SplitJoin(parts, '-');
    ParseIntOfNaN();
  }

  /** `parseInt("NaN")` is `NaN`: the text starts with neither a sign nor a digit. */
  lemma ParseIntOfNaN()
    ensures JsText.ParseInt("NaN") == None
  {
    var t := "NaN";
    assert !JsText.IsJsSpace(t[0]);
    assert JsText.TrimStart(t) == t;
    assert !JsText.IsRadixDigit(t[0], 10);
    assert JsText.DigitPrefix(t, 10) == [];
  }

  lemma KeyFieldsOfKeyOf(c: Calendar.CivilDate)
    requires c.year >= 0 && 1 <= c.month <= 12
    ensures KeyFields(KeyOf(c)) == (Some(c.year), Some(c.month))
  {
    var ys := JsText.IntToString(c.year);
    var m := Calendar.PadDigits(c.month, 2);
    assert ys == JsText.NatToString(c.year);
    assert '-' !in ys && '-' !in m by {
      assert forall i | 0 <= i < |ys| :: JsText.IsDecimalDigit(ys[i]);
      assert forall i | 0 <= i < |m| :: JsText.IsDecimalDigit(m[i]);
    }
    assert JsText.Join([ys, m], "-") == KeyOf(c) by {
      assert [ys, m][1..] == [m];
    }
    JsText.SplitJoin([ys, m], '-');
    JsText.ParseIntOfIntToString(c.year);
    JsText.ParseUnsignedStart(m);
    JsText.ParseUnsignedDigits(m);
    assert Calendar.Pow10(2) == 100;
    Calendar.PaddedValue(c.month, 2);
  }

  /** `a.localeCompare(b) < 0` on the keys, taken as code-unit order. */
  predicate LexLess(a: string, b: string) {
    if a == [] then b != []
    else if b == [] then false
    else a[0] < b[0] || (a[0] == b[0] && LexLess(a[1..], b[1..]))
  }

  lemma {:induction false} LexLessIrreflexive(a: string)
    ensures !LexLess(a, a)
  {
    if a != [] {
      LexLessIrreflexive(a[1..]);
    }
  }

  lemma {:induction false} LexLessTransitive(a: string, b: string, c: string)
    requires LexLess(a, b) && LexLess(b, c)
    ensures LexLess(a, c)
  {
    if a != [] && b != [] && c != [] && a[0] == b[0] && b[0] == c[0] {
      LexLessTransitive(a[1..], b[1..], c[1..]);
    }
  }

  lemma {:induction false} LexLessTotal(a: string, b: string)
    ensures LexLess(a, b) || a == b || LexLess(b, a)
  {
    if a != [] && b != [] && a[0] == b[0] {
      LexLessTotal(a[1..], b[1..]);
      if a[1..] == b[1..] {
        assert a == [a[0]] + a[1..] && b == [b[0]] + b[1..];
      }
    }
  }

  /**
   * Two runs of decimal digits of one length (four-digit years, zero-padded months) compare as
   * text the way they compare as numbers, and are equal exactly when their values are.
   */
  lemma {:induction false} LexLessOfDigits(a: string, b: string)
    requires |a| == |b|
    requires forall i | 0 <= i < |a| :: JsText.IsDecimalDigit(a[i]) && JsText.IsDecimalDigit(b[i])
    ensures LexLess(a, b) <==> JsText.DigitsValue(a, 10) < JsText.DigitsValue(b, 10)
    ensures a == b <==> JsText.DigitsValue(a, 10) == JsText.DigitsValue(b, 10)
    decreases |a|
  {
    if a != [] {
      var a', b' := a[..|a| - 1], b[..|b| - 1];
      var x, y := a[|a| - 1], b[|b| - 1];
      LexLessOfDigits(a', b');
      Sequences.InitLast(a);
      Sequences.InitLast(b);
      LexLessAfterSamePrefix(a', b', [x], [y]);
      LexLessOfChars(x, y);
      AppendDigit(JsText.DigitsValue(a', 10), JsText.DigitsValue(b', 10), x, y);
      Sequences.AppendOne(a', b', x, y);
    } else {
      LexLessIrreflexive(a);
    }
  }

  /** One-character strings compare as their characters. */
  lemma LexLessOfChars(x: char, y: char)
    ensures LexLess([x], [y]) <==> x < y
  {
    assert [x][1..] == [] && [y][1..] == [];
  }

  /** Appending a decimal digit to two values orders them by the values first, then by the digits. */
  lemma AppendDigit(va: nat, vb: nat, x: char, y: char)
    requires JsText.IsDecimalDigit(x) && JsText.IsDecimalDigit(y)
    ensures va * 10 + JsText.DigitValue(x) < vb * 10 + JsText.DigitValue(y) <==> va < vb || (va == vb && x < y)
    ensures va * 10 + JsText.DigitValue(x) == vb * 10 + JsText.DigitValue(y) <==> va == vb && x == y
  {
    var dx, dy := JsText.DigitValue(x), JsText.DigitValue(y);
    assert dx == (x - '0') as int && dy == (y - '0') as int && dx < 10 && dy < 10;
  }

  /**
   * For dates of four-digit years, one key sorts before another exactly when its month comes
   * earlier, so ordering keys from largest to smallest puts the newest month first.
   */
  lemma KeyOrderIsDateOrder(c1: Calendar.CivilDate, c2: Calendar.CivilDate)
    requires 1000 <= c1.year <= 9999 && 1000 <= c2.year <= 9999
    requires 1 <= c1.month <= 12 && 1 <= c2.month <= 12
    ensures LexLess(KeyOf(c1), KeyOf(c2))
        <==> c1.year < c2.year || (c1.year == c2.year && c1.month < c2.month)
  {
    var y1, y2 := FourDigitYear(c1.year), FourDigitYear(c2.year);
    var m1, m2 := Calendar.PadDigits(c1.month, 2), Calendar.PadDigits(c2.month, 2);
    LexLessOfDigits(y1, y2);
    LexLessOfDigits(m1, m2);
    assert Calendar.Pow10(2) == 100;
    Calendar.PaddedValue(c1.month, 2);
    Calendar.PaddedValue(c2.month, 2);
    LexLessAfterSamePrefix(y1, y2, "-" + m1, "-" + m2);
    LexLessAfterSamePrefix("-", "-", m1, m2);
  }

  /** A year of four digits is written by `toString` as exactly those four digits. */
  function FourDigitYear(y: int): (s: string)
    requires 1000 <= y <= 9999
    ensures s == JsText.IntToString(y) && |s| == 4
    ensures forall i | 0 <= i < 4 :: JsText.IsDecimalDigit(s[i])
    ensures JsText.DigitsValue(s, 10) == y
  {
    JsText.DigitsValueOfNatToString(y);
    NatToStringLength(y);
    JsText.NatToString(y)
  }

  lemma {:induction false} NatToStringLength(n: nat)
    requires 1000 <= n <= 9999
    ensures |JsText.NatToString(n)| == 4
  {
    var a, b, c := n / 10, n / 100, n / 1000;
    assert a / 10 == b && b / 10 == c;
    assert 100 <= a && 10 <= b && 1 <= c < 10;
    assert |JsText.NatToString(c)| == 1;
    assert |JsText.NatToString(b)| == 2;
    assert |JsText.NatToString(a)| == 3;
  }

  /** Comparing `a + x` with `b + y` for `a`, `b` of one length: first `a` with `b`, then `x` with `y`. */
  lemma {:induction false} LexLessAfterSamePrefix(a: string, b: string, x: string, y: string)
    requires |a| == |b|
    ensures LexLess(a + x, b + y) <==> LexLess(a, b) || (a == b && LexLess(x, y))
    decreases |a|
  {
    if a != [] {
      assert (a + x)[0] == a[0] && (b + y)[0] == b[0];
      assert (a + x)[1..] == a[1..] + x && (b + y)[1..] == b[1..] + y;
      LexLessAfterSamePrefix(a[1..], b[1..], x, y);
      if a[0] == b[0] && a[1..] == b[1..] {
        assert a == [a[0]] + a[1..] && b == [b[0]] + b[1..];
      }
      if a == b {
        LexLessIrreflexive(a[1..]);
      }
    } else {
      assert a + x == x && b + y == y;
    }
  }

  // ---- Grouping ----

  /** One month's entries under its key. */
  datatype Group = Group(key: string, entries: seq<ServiceHistory>)

  /** The entries of `hs` under `key`, in their order in `hs`. */
  function InMonth(hs: seq<ServiceHistory>, key: string): seq<ServiceHistory> {
    if hs == [] then []
    else InMonth(hs[..|hs| - 1], key) + (if MonthKey(hs[|hs| - 1].serviceDate) == key then [hs[|hs| - 1]] else [])
  }

  /** No key occurs twice. */
  predicate Distinct(ks: seq<string>) {
    forall i, j | 0 <= i < j < |ks| :: ks[i] != ks[j]
  }

  /** The keys of `hs` in order of first appearance: the order the grouping object receives them. */
  function KeyOrder(hs: seq<ServiceHistory>): seq<string> {
    if hs == [] then []
    else
      var ks := KeyOrder(hs[..|hs| - 1]);
      var k := MonthKey(hs[|hs| - 1].serviceDate);
      if k in ks then ks else ks + [k]
  }

  /** Each month of the list appears once among the keys. */
  lemma {:induction false} KeyOrderProperties(hs: seq<ServiceHistory>)
    ensures Distinct(KeyOrder(hs))
    ensures forall h | h in hs :: MonthKey(h.serviceDate) in KeyOrder(hs)
  {
    if hs != [] {
      var init := hs[..|hs| - 1];
      KeyOrderProperties(init);
      assert forall h | h in hs :: h in init || h == hs[|hs| - 1];
    }
  }

  /** A month's entries are there exactly when the month's key occurs. */
  lemma {:induction false} InMonthNonEmpty(hs: seq<ServiceHistory>, key: string)
    ensures InMonth(hs, key) != [] <==> key in KeyOrder(hs)
  {
    if hs != [] {
      InMonthNonEmpty(hs[..|hs| - 1], key);
    }
  }

  /** One more entry: its month's list grows by it, and its key is added if new. */
  lemma GroupStep(hs: seq<ServiceHistory>, h: ServiceHistory)
    ensures var k := MonthKey(h.serviceDate);
      && KeyOrder(hs + [h]) == (if k in KeyOrder(hs) then KeyOrder(hs) else KeyOrder(hs) + [k])
      && forall key :: InMonth(hs + [h], key) == InMonth(hs, key) + (if key == k then [h] else [])
  {
    assert (hs + [h])[..|hs|] == hs;
  }

  /** Within a month, entries keep the order they have in the history list. */
  lemma InMonthIsSubsequence(hs: seq<ServiceHistory>, key: string)
    ensures forall h | h in InMonth(hs, key) :: h in hs && MonthKey(h.serviceDate) == key
    ensures multiset(InMonth(hs, key)) <= multiset(hs)
  {
    InMonthKeys(hs, key);
    InMonthMultiset(hs, key);
  }

  lemma {:induction false} InMonthKeys(hs: seq<ServiceHistory>, key: string)
    ensures forall h | h in InMonth(hs, key) :: MonthKey(h.serviceDate) == key
  {
    if hs != [] {
      InMonthKeys(hs[..|hs| - 1], key);
    }
  }

  lemma {:induction false} InMonthMultiset(hs: seq<ServiceHistory>, key: string)
    ensures multiset(InMonth(hs, key)) <= multiset(hs)
  {
    if hs != [] {
      var init, last := hs[..|hs| - 1], hs[|hs| - 1];
      InMonthMultiset(init, key);
      Sequences.InitLast(hs);
    }
  }

  /** Groups come in descending key order: `before(x, y)` when `y.key.localeCompare(x.key) < 0`. */
  function KeyAfter(x: Group, y: Group): bool {
    LexLess(y.key, x.key)
  }

  /** The groups in first-appearance order, before the sort. */
  function GroupsInOrder(hs: seq<ServiceHistory>, ks: seq<string>): seq<Group> {
    if ks == [] then [] else GroupsInOrder(hs, ks[..|ks| - 1]) + [Group(ks[|ks| - 1], InMonth(hs, ks[|ks| - 1]))]
  }

  /** The page's `grouped`: the month groups, newest key first. */
  function Grouped(hs: seq<ServiceHistory>): seq<Group> {
    StableSort.InsertionSort(GroupsInOrder(hs, KeyOrder(hs)), KeyAfter)
  }

  /** `groups` and `order` hold the months of `hs` in first-appearance order, each with its entries. */
  ghost predicate Collected(groups: map<string, seq<ServiceHistory>>, order: seq<string>, hs: seq<ServiceHistory>) {
    && order == KeyOrder(hs)
    && (forall k :: k in groups <==> k in order)
    && (forall k | k in groups :: groups[k] == InMonth(hs, k))
  }

  /** Pushing one more entry onto its month, after creating the month's key if it is new. */
  lemma CollectStep(groups: map<string, seq<ServiceHistory>>, order: seq<string>, hs: seq<ServiceHistory>, h: ServiceHistory)
    requires Collected(groups, order, hs)
    ensures var key := MonthKey(h.serviceDate);
      var g := if key in groups then groups else groups[key := []];
      var o := if key in groups then order else order + [key];
      Collected(g[key := g[key] + [h]], o, hs + [h])
  {
    var key := MonthKey(h.serviceDate);
    var g := if key in groups then groups else groups[key := []];
    var o := if key in groups then order else order + [key];
    var g' := g[key := g[key] + [h]];
    GroupStep(hs, h);
    if key !in groups {
      InMonthNonEmpty(hs, key);
    }
    assert o == KeyOrder(hs + [h]);
    forall k | k in g'
      ensures g'[k] == InMonth(hs + [h], k)
    {
      if k != key {
        assert g'[k] == groups[k];
      }
    }
  }

  /**
   * The `forEach` of the `grouped` memo: an object with a key per month, in the order the months
   * first appear, each holding its month's entries in history order.
   */
  method CollectGroups(history: seq<ServiceHistory>) returns (groups: map<string, seq<ServiceHistory>>, order: seq<string>)
    ensures order == KeyOrder(history)
    ensures forall k :: k in groups <==> k in order
    ensures forall k | k in groups :: groups[k] == InMonth(history, k)
  {
    groups, order := map[], [];
    for i := 0 to |history|
      invariant Collected(groups, order, history[..i])
    {
      var key := MonthKey(history[i].serviceDate);
      assert history[..i + 1] == history[..i] + [history[i]];
      CollectStep(groups, order, history[..i], history[i]);
      if key !in groups {
        groups := groups[key := []];
        order := order + [key];
      }
      groups := groups[key := groups[key] + [history[i]]];
    }
    assert history[..|history|] == history;
  }

  /**
   * The `grouped` memo: the month groups collected, then
   * `Object.entries(groups).sort(([a], [b]) => b.localeCompare(a))`.
   */
  method GroupByMonth(history: seq<ServiceHistory>) returns (grouped: seq<Group>)
    ensures grouped == Grouped(history)
  {
    var groups, order := CollectGroups(history);
    var entries := EntriesOf(groups, order);
    GroupsFromMap(groups, order, history);
    grouped := StableSort.SortedCopy(entries, KeyAfter);
  }

  /** `Object.entries` of the grouping object, in key insertion order. */
  function EntriesOf(groups: map<string, seq<ServiceHistory>>, order: seq<string>): seq<Group>
    requires forall k | k in order :: k in groups
  {
    if order == [] then []
    else EntriesOf(groups, order[..|order| - 1]) + [Group(order[|order| - 1], groups[order[|order| - 1]])]
  }

  lemma {:induction false} GroupsFromMap(groups: map<string, seq<ServiceHistory>>, order: seq<string>, hs: seq<ServiceHistory>)
    requires forall k | k in order :: k in groups && groups[k] == InMonth(hs, k)
    ensures EntriesOf(groups, order) == GroupsInOrder(hs, order)
  {
    if order != [] {
      GroupsFromMap(groups, order[..|order| - 1], hs);
    }
  }

  lemma {:induction false} GroupsInOrderKeys(hs: seq<ServiceHistory>, ks: seq<string>)
    ensures |GroupsInOrder(hs, ks)| == |ks|
    ensures forall i | 0 <= i < |ks| :: GroupsInOrder(hs, ks)[i] == Group(ks[i], InMonth(hs, ks[i]))
  {
    if ks != [] {
      GroupsInOrderKeys(hs, ks[..|ks| - 1]);
    }
  }

  /** Descending key order is a strict weak order on groups whose keys differ. */
  lemma KeyAfterIsStrictWeakOrder(gs: seq<Group>)
    ensures StableSort.StrictWeakOrderOn(gs, KeyAfter)
  {
    forall x | x in gs ensures !KeyAfter(x, x) {
      LexLessIrreflexive(x.key);
    }
    forall x, y, z | x in gs && y in gs && z in gs && KeyAfter(x, y) && KeyAfter(y, z)
      ensures KeyAfter(x, z)
    {
      LexLessTransitive(z.key, y.key, x.key);
    }
    forall x, y, z | x in gs && y in gs && z in gs && KeyAfter(x, z)
      ensures KeyAfter(x, y) || KeyAfter(y, z)
    {
      LexLessTotal(x.key, y.key);
      if LexLess(x.key, y.key) {
        LexLessTransitive(z.key, x.key, y.key);
      }
    }
  }

  /** No two groups share a key. */
  predicate DistinctKeys(gs: seq<Group>) {
    forall i, j | 0 <= i < j < |gs| :: gs[i].key != gs[j].key
  }

  /** Sorting groups of pairwise different keys leaves their keys pairwise different. */
  lemma {:induction false} SortKeepsDistinctKeys(s: seq<Group>)
    requires DistinctKeys(s)
    ensures DistinctKeys(StableSort.InsertionSort(s, KeyAfter))
  {
    if s != [] {
      var u := s[..|s| - 1];
      var x := s[|s| - 1];
      var t := StableSort.InsertionSort(u, KeyAfter);
      SortKeepsDistinctKeys(u);
      StableSort.SortIsPermutation(u, KeyAfter);
      var k := StableSort.InsertShape(t, x, KeyAfter);
      var r := StableSort.Insert(t, x, KeyAfter);
      forall m | 0 <= m < |t|
        ensures t[m].key != x.key
      {
        assert t[m] in multiset(u);
        LastKeyFresh(s, t[m]);
      }
      forall i, j | 0 <= i < j < |r|
        ensures r[i].key != r[j].key
      {
        InsertedAt(t, x, k, i);
        InsertedAt(t, x, k, j);
      }
    }
  }

  /** The last group's key is not the key of any group before it. */
  lemma LastKeyFresh(s: seq<Group>, g: Group)
    requires DistinctKeys(s) && s != [] && g in s[..|s| - 1]
    ensures g.key != s[|s| - 1].key
  {
    var p :| 0 <= p < |s| - 1 && s[..|s| - 1][p] == g;
    assert s[p] == g;
  }

  lemma InsertedAt(t: seq<Group>, x: Group, k: int, i: int)
    requires 0 <= k <= |t| && 0 <= i <= |t|
    ensures (t[..k] + [x] + t[k..])[i] == if i < k then t[i] else if i == k then x else t[i - 1]
  {
  }

  /** The groups before sorting are the distinct keys, each with its month's entries. */
  lemma UnsortedGroups(hs: seq<ServiceHistory>)
    ensures var ks := KeyOrder(hs);
      var unsorted := GroupsInOrder(hs, ks);
      && |unsorted| == |ks|
      && DistinctKeys(unsorted)
      && (forall p | 0 <= p < |ks| :: unsorted[p] == Group(ks[p], InMonth(hs, ks[p])))
      && multiset(Grouped(hs)) == multiset(unsorted)
  {
    KeyOrderProperties(hs);
    GroupsInOrderKeys(hs, KeyOrder(hs));
    StableSort.SortIsPermutation(GroupsInOrder(hs, KeyOrder(hs)), KeyAfter);
  }

  /** The month keys of the page strictly descend: newest month first, no month twice. */
  lemma GroupedDescending(hs: seq<ServiceHistory>)
    ensures var g := Grouped(hs);
      forall i, j | 0 <= i < j < |g| :: LexLess(g[j].key, g[i].key)
  {
    var unsorted := GroupsInOrder(hs, KeyOrder(hs));
    var g := Grouped(hs);
    UnsortedGroups(hs);
    KeyAfterIsStrictWeakOrder(unsorted);
    StableSort.SortIsSorted(unsorted, KeyAfter);
    SortKeepsDistinctKeys(unsorted);
    forall i, j | 0 <= i < j < |g|
      ensures LexLess(g[j].key, g[i].key)
    {
      assert !KeyAfter(g[j], g[i]);
      LexLessTotal(g[i].key, g[j].key);
    }
  }

  /** Every group holds exactly its month's entries, in list order, and none is empty. */
  lemma GroupedEntries(hs: seq<ServiceHistory>)
    ensures var g := Grouped(hs);
      forall i | 0 <= i < |g| :: g[i].entries == InMonth(hs, g[i].key) && g[i].entries != []
  {
    var ks := KeyOrder(hs);
    var unsorted := GroupsInOrder(hs, ks);
    var g := Grouped(hs);
    UnsortedGroups(hs);
    forall i | 0 <= i < |g|
      ensures g[i].entries == InMonth(hs, g[i].key) && g[i].entries != []
    {
      assert g[i] in multiset(unsorted);
      var p :| 0 <= p < |unsorted| && unsorted[p] == g[i];
      InMonthNonEmpty(hs, ks[p]);
    }
  }

  /** Every entry's month has a group. */
  lemma GroupedCovers(hs: seq<ServiceHistory>)
    ensures var g := Grouped(hs);
      forall h | h in hs :: exists i | 0 <= i < |g| :: g[i].key == MonthKey(h.serviceDate)
  {
    var ks := KeyOrder(hs);
    var unsorted := GroupsInOrder(hs, ks);
    var g := Grouped(hs);
    UnsortedGroups(hs);
    KeyOrderProperties(hs);
    forall h | h in hs
      ensures exists i | 0 <= i < |g| :: g[i].key == MonthKey(h.serviceDate)
    {
      var k := MonthKey(h.serviceDate);
      var p :| 0 <= p < |ks| && ks[p] == k;
      assert unsorted[p] in multiset(g);
      var i :| 0 <= i < |g| && g[i] == unsorted[p];
    }
  }

  // ---- Month totals ----

  /** `entries.reduce((s, e) => s + (e.totalCost || 0), 0)` for one month. */
  function MonthTotal(g: Group): int {
    TotalSpent(g.entries)
  }

  function SumOfMonthTotals(gs: seq<Group>): int {
    if gs == [] then 0 else SumOfMonthTotals(gs[..|gs| - 1]) + MonthTotal(gs[|gs| - 1])
  }

  /** The month totals add up to the overall total: every entry's cost is counted in exactly one month. */
  lemma MonthTotalsAddUp(hs: seq<ServiceHistory>)
    ensures SumOfMonthTotals(Grouped(hs)) == TotalSpent(hs)
  {
    var unsorted := GroupsInOrder(hs, KeyOrder(hs));
    StableSort.SortIsPermutation(unsorted, KeyAfter);
    SumOfMonthTotalsPermutation(Grouped(hs), unsorted);
    MonthTotalsInOrder(hs);
  }

  lemma TotalSpentSingle(h: ServiceHistory)
    ensures TotalSpent([h]) == CostOf(h)
  {
    assert [h][..0] == [];
  }

  /** The sum over keys `ks + [k]` adds month `k`'s total to the sum over `ks`. */
  lemma SumOverKeysAppend(hs: seq<ServiceHistory>, ks: seq<string>, k: string)
    ensures SumOfMonthTotals(GroupsInOrder(hs, ks + [k]))
         == SumOfMonthTotals(GroupsInOrder(hs, ks)) + TotalSpent(InMonth(hs, k))
  {
    assert (ks + [k])[..|ks|] == ks;
  }

  lemma {:induction false} MonthTotalsInOrder(hs: seq<ServiceHistory>)
    ensures SumOfMonthTotals(GroupsInOrder(hs, KeyOrder(hs))) == TotalSpent(hs)
  {
    if hs != [] {
      var init := hs[..|hs| - 1];
      var h := hs[|hs| - 1];
      var k := MonthKey(h.serviceDate);
      var ks := KeyOrder(init);
      Sequences.InitLast(hs);
      MonthTotalsInOrder(init);
      KeyOrderProperties(init);
      SumOverKeysStep(init, h, ks);
      assert TotalSpent(hs) == TotalSpent(init) + CostOf(h);
      if k !in ks {
        TotalSpentSingle(h);
        GroupStep(init, h);
        InMonthNonEmpty(init, k);
        SumOverKeysAppend(hs, ks, k);
      }
    }
  }

  /**
   * Adding entry `h` to a history raises the total of its own month by its cost and leaves the
   * other months as they were.
   */
  lemma {:induction false} SumOverKeysStep(init: seq<ServiceHistory>, h: ServiceHistory, ks: seq<string>)
    requires Distinct(ks)
    ensures var k := MonthKey(h.serviceDate);
      SumOfMonthTotals(GroupsInOrder(init + [h], ks))
        == SumOfMonthTotals(GroupsInOrder(init, ks)) + (if k in ks then CostOf(h) else 0)
  {
    var hs := init + [h];
    assert hs[..|hs| - 1] == init && hs[|hs| - 1] == h;
    if ks != [] {
      var ks' := ks[..|ks| - 1];
      var last := ks[|ks| - 1];
      SumOverKeysStep(init, h, ks');
      var k := MonthKey(h.serviceDate);
      TotalSpentAppend(InMonth(init, last), if k == last then [h] else []);
      TotalSpentSingle(h);
      assert k in ks <==> k in ks' || k == last;
      assert k == last ==> k !in ks';
    }
  }

  /** Reordering the groups does not change the sum of their totals. */
  lemma {:induction false} SumOfMonthTotalsPermutation(a: seq<Group>, b: seq<Group>)
    requires multiset(a) == multiset(b)
    ensures SumOfMonthTotals(a) == SumOfMonthTotals(b)
    decreases |a|
  {
    if a != [] {
      var x := a[|a| - 1];
      var a' := a[..|a| - 1];
      assert x in multiset(b);
      var p :| 0 <= p < |b| && b[p] == x;
      var rest := b[..p] + b[p + 1..];
      Sequences.InitLast(a);
      Sequences.MultisetRemove(a, |a| - 1);
      Sequences.MultisetRemove(b, p);
      assert a[..|a| - 1] + a[|a|..] == a';
      SumOfMonthTotalsPermutation(a', rest);
      assert SumOfMonthTotals(a) == SumOfMonthTotals(a') + MonthTotal(x);
      SumOfMonthTotalsRemove(b, p);
    }
  }

  lemma {:induction false} SumOfMonthTotalsRemove(b: seq<Group>, p: int)
    requires 0 <= p < |b|
    ensures SumOfMonthTotals(b) == SumOfMonthTotals(b[..p] + b[p + 1..]) + MonthTotal(b[p])
    decreases |b|
  {
    if p < |b| - 1 {
      var init := b[..|b| - 1];
      SumOfMonthTotalsRemove(init, p);
      assert init[..p] + init[p + 1..] == (b[..p] + b[p + 1..])[..|b| - 2];
    } else {
      assert b[..p] + b[p + 1..] == b[..|b| - 1];
    }
  }
}
