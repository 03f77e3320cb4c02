/** The seat grid the client pages draw: seats grouped into rows by the first character of
    their number, each row ordered by the number that follows. The passenger seat page and
    the operator's seat editor use the same grouping. */
module SeatGrid {
  import opened Wrappers
  import opened Sequences
  import JsText

  /** A seat as the pages hold it. An empty `seatStatus` stands for a missing (null or
      undefined) status. */
  datatype SeatCell = SeatCell(seatId: int, seatNumber: string, seatType: string, seatStatus: string)

  /** `seat.seatNumber.charAt(0)`: the first character, or `None` for the empty string an
      empty number gives. */
  function RowKey(seat: SeatCell): Option<char> {
    if seat.seatNumber == [] then None else Some(seat.seatNumber[0])
  }

  /** `parseInt(seat.seatNumber.substring(1))`, with no radix: a suffix starting "0x" or
      "0X" is read in base sixteen. `None` is NaN. */
  function Suffix(seat: SeatCell): Option<int> {
    JsText.ParseInt(if seat.seatNumber == [] then [] else seat.seatNumber[1..])
  }

  /** Seat "A0x1F" has suffix 31, and seat "A0x" has none. */
  lemma HexSuffixes()
    ensures Suffix(SeatCell(1, "A0x1F", "Normal", "Available")) == Some(31)
    ensures Suffix(SeatCell(2, "A0x", "Normal", "Available")) == None
  {
    assert "A0x1F"[1..] == "0x1F";
    assert "A0x"[1..] == "0x";
    JsText.ParseIntHexExample();
    JsText.ParseIntBareHexPrefix();
  }

  /** The sort comparator `key(a) - key(b)` is positive: both keys are numbers and `a`'s is
      the larger. A NaN difference counts as zero. */
  predicate After<T>(key: T -> Option<int>, a: T, b: T) {
    key(a).Some? && key(b).Some? && key(a).value > key(b).value
  }

  predicate KeysParse<T>(key: T -> Option<int>, s: seq<T>) {
    forall i :: 0 <= i < |s| ==> key(s[i]).Some?
  }

  /** No element is placed before one with a smaller key. */
  predicate AscendingBy<T>(key: T -> Option<int>, s: seq<T>) {
    forall i, j :: 0 <= i < j < |s| ==> !After(key, s[i], s[j])
  }

  /** Inserts `x` before the first element that sorts after it. */
  function Insert<T>(key: T -> Option<int>, x: T, s: seq<T>): (r: seq<T>)
    ensures |r| == |s| + 1 && multiset(r) == multiset(s) + multiset{x}
  {
    if s == [] then [x]
    else if After(key, s[0], x) then [x] + s
    else
      assert s == [s[0]] + s[1..];
      [s[0]] + Insert(key, x, s[1..])
  }

  /** Inserting an element with a numeric key into an ascending sequence of such elements
      keeps it ascending. */
  lemma {:induction false} InsertKeepsAscending<T>(key: T -> Option<int>, x: T, s: seq<T>)
    requires KeysParse(key, s) && key(x).Some? && AscendingBy(key, s)
    ensures KeysParse(key, Insert(key, x, s)) && AscendingBy(key, Insert(key, x, s))
  {
    var r := Insert(key, x, s);
    if s == [] {
    } else if After(key, s[0], x) {
      assert r == [x] + s;
      forall j | 0 < j < |r| ensures !After(key, x, r[j]) {
        assert r[j] == s[j - 1];
      }
    } else {
      var tail := s[1..];
      assert KeysParse(key, tail) && AscendingBy(key, tail);
      InsertKeepsAscending(key, x, tail);
      var rest := Insert(key, x, tail);
      assert r == [s[0]] + rest;
      forall j | 0 <= j < |rest| ensures key(rest[j]).Some? && !After(key, s[0], rest[j]) {
        assert rest[j] in multiset(rest);
        assert rest[j] in multiset(tail) || rest[j] == x;
        if rest[j] != x {
          var m :| 0 <= m < |tail| && tail[m] == rest[j];
          assert tail[m] == s[m + 1];
        }
      }
    }
  }

  /** `array.sort((a, b) => key(a) - key(b))` as an insertion sort. */
  function SortBy<T>(key: T -> Option<int>, s: seq<T>): (r: seq<T>)
    ensures |r| == |s| && multiset(r) == multiset(s)
  {
    if s == [] then []
    else
      assert s == s[..|s| - 1] + [s[|s| - 1]];
      Insert(key, s[|s| - 1], SortBy(key, s[..|s| - 1]))
  }

  /** The sort returns a permutation which, when every key is a number, is ascending by key.
      (With NaN keys the comparator is not consistent and the order is left to the engine; the
      insertion order is one admissible outcome.) */
  lemma {:induction false} SortByAscending<T>(key: T -> Option<int>, s: seq<T>)
    requires KeysParse(key, s)
    ensures KeysParse(key, SortBy(key, s)) && AscendingBy(key, SortBy(key, s))
  {
    if s != [] {
      var init := s[..|s| - 1];
      assert KeysParse(key, init) by {
        forall i | 0 <= i < |init| ensures key(init[i]).Some? {
          assert init[i] == s[i];
        }
      }
      SortByAscending(key, init);
      InsertKeepsAscending(key, s[|s| - 1], SortBy(key, init));
    }
  }

  /** The sort of one row: by `parseInt` of the seat number after its first character. */
  function SortBySuffix(row: seq<SeatCell>): seq<SeatCell> {
    SortBy(Suffix, row)
  }

  /** The seats of row `k`, in input order: what `rows[k].push(seat)` collects. */
  function SeatsInRow(seats: seq<SeatCell>, k: Option<char>): seq<SeatCell> {
    if seats == [] then []
    else SeatsInRow(seats[..|seats| - 1], k) + (if RowKey(seats[|seats| - 1]) == k then [seats[|seats| - 1]] else [])
  }

  /** Row `k` holds every seat of key `k` as often as the input does, and no other seat. */
  lemma {:induction false} SeatsInRowCount(seats: seq<SeatCell>, k: Option<char>, x: SeatCell)
    ensures multiset(SeatsInRow(seats, k))[x] == if RowKey(x) == k then multiset(seats)[x] else 0
  {
    if seats != [] {
      var init := seats[..|seats| - 1];
      var last := seats[|seats| - 1];
      assert seats == init + [last];
      SeatsInRowCount(init, k, x);
    }
  }

  /** Row `k` is empty exactly when no seat has key `k`. */
  lemma {:induction false} SeatsInRowEmpty(seats: seq<SeatCell>, k: Option<char>)
    ensures SeatsInRow(seats, k) == [] <==> forall i :: 0 <= i < |seats| ==> RowKey(seats[i]) != k
  {
    if seats != [] {
      var init := seats[..|seats| - 1];
      SeatsInRowEmpty(init, k);
      assert forall i :: 0 <= i < |init| ==> init[i] == seats[i];
    }
  }

  /** The row keys in the order the seats first use them. */
  function FirstAppearance(seats: seq<SeatCell>): seq<Option<char>> {
    if seats == [] then []
    else
      var keys := FirstAppearance(seats[..|seats| - 1]);
      var k := RowKey(seats[|seats| - 1]);
      if k in keys then keys else keys + [k]
  }

  /** Each key is met once, and the keys met are exactly the keys of the seats. */
  lemma {:induction false} FirstAppearanceKeys(seats: seq<SeatCell>)
    ensures Distinct(FirstAppearance(seats))
    ensures forall k :: k in FirstAppearance(seats) <==> exists i :: 0 <= i < |seats| && RowKey(seats[i]) == k
  {
    if seats != [] {
      var init := seats[..|seats| - 1];
      FirstAppearanceKeys(init);
      assert forall i :: 0 <= i < |init| ==> init[i] == seats[i];
    }
  }

  /** A one-character key names an array index exactly when it is a decimal digit; the empty
      key does not. */
  predicate IsIndexKey(k: Option<char>) {
    k.Some? && JsText.IsDigit(k.value)
  }

  /** The digit keys among `keys` from digit `d` up, in ascending order. */
  function IndexKeysFrom(keys: seq<Option<char>>, d: nat): seq<Option<char>>
    decreases 10 - d
  {
    if d >= 10 then []
    else (if Some(JsText.DigitChar(d)) in keys then [Some(JsText.DigitChar(d))] else []) + IndexKeysFrom(keys, d + 1)
  }

  /** The keys of `keys` that are not array indices, in their order. */
  function OtherKeys(keys: seq<Option<char>>): seq<Option<char>> {
    if keys == [] then []
    else (if IsIndexKey(keys[0]) then [] else [keys[0]]) + OtherKeys(keys[1..])
  }

  /** `Object.keys` order of a dictionary whose keys were added in the order `keys`: the
      array-index keys in ascending numeric order, then the other keys in insertion order. */
  function PropertyOrder(keys: seq<Option<char>>): seq<Option<char>> {
    IndexKeysFrom(keys, 0) + OtherKeys(keys)
  }

  lemma {:induction false} IndexKeysFromFacts(keys: seq<Option<char>>, d: nat)
    ensures var r := IndexKeysFrom(keys, d);
      && (forall i :: 0 <= i < |r| ==> IsIndexKey(r[i]) && r[i] in keys && JsText.DigitValue(r[i].value) >= d)
      && (forall i, j :: 0 <= i < j < |r| ==> JsText.DigitValue(r[i].value) < JsText.DigitValue(r[j].value))
      && (forall k :: k in keys && IsIndexKey(k) && JsText.DigitValue(k.value) >= d ==> k in r)
    decreases 10 - d
  {
    if d < 10 {
      IndexKeysFromFacts(keys, d + 1);
      forall k | k in keys && IsIndexKey(k) && JsText.DigitValue(k.value) == d
        ensures k == Some(JsText.DigitChar(d))
      {
        assert JsText.DigitChar(JsText.DigitValue(k.value)) == k.value;
      }
    } else {
      forall k | k in keys && IsIndexKey(k) ensures JsText.DigitValue(k.value) < 10 {
      }
    }
  }

  lemma {:induction false} OtherKeysFacts(keys: seq<Option<char>>)
    ensures var r := OtherKeys(keys);
      && (forall i :: 0 <= i < |r| ==> !IsIndexKey(r[i]) && r[i] in keys)
      && (forall k :: k in keys && !IsIndexKey(k) ==> k in r)
      && (Distinct(keys) ==> Distinct(r))
  {
    if keys != [] {
      OtherKeysFacts(keys[1..]);
      forall k | k in keys && !IsIndexKey(k) ensures k in OtherKeys(keys) {
        if k != keys[0] {
          assert k in keys[1..];
        }
      }
      if Distinct(keys) {
        assert Distinct(keys[1..]);
        assert keys[0] !in keys[1..];
        assert keys[0] !in OtherKeys(keys[1..]);
      }
    }
  }

  /** The property order lists each key of `keys` once. */
  lemma PropertyOrderDistinct(keys: seq<Option<char>>)
    requires Distinct(keys)
    ensures Distinct(PropertyOrder(keys))
  {
    IndexKeysFromFacts(keys, 0);
    OtherKeysFacts(keys);
    var a, b := IndexKeysFrom(keys, 0), OtherKeys(keys);
    assert Distinct(a) by {
      forall i, j | 0 <= i < j < |a| ensures a[i] != a[j] {
        assert JsText.DigitValue(a[i].value) < JsText.DigitValue(a[j].value);
      }
    }
    forall i, j | 0 <= i < |a| && 0 <= j < |b| ensures a[i] != b[j] {
      assert IsIndexKey(a[i]) && !IsIndexKey(b[j]);
    }
    DistinctAppend(a, b);
  }

  /** The property order lists exactly the keys of `keys`. */
  lemma PropertyOrderKeys(keys: seq<Option<char>>)
    ensures forall k :: k in PropertyOrder(keys) <==> k in keys
  {
    IndexKeysFromFacts(keys, 0);
    OtherKeysFacts(keys);
    var a, b := IndexKeysFrom(keys, 0), OtherKeys(keys);
    forall k ensures k in a + b <==> k in keys {
      if k in keys && IsIndexKey(k) {
        assert JsText.DigitValue(k.value) >= 0;
      }
    }
  }

  lemma IndexKeysAreIndexKeys(keys: seq<Option<char>>)
    ensures forall i :: 0 <= i < |IndexKeysFrom(keys, 0)| ==> IsIndexKey(IndexKeysFrom(keys, 0)[i])
  {
    IndexKeysFromFacts(keys, 0);
  }

  lemma OtherKeysAreNotIndexKeys(keys: seq<Option<char>>)
    ensures forall i :: 0 <= i < |OtherKeys(keys)| ==> !IsIndexKey(OtherKeys(keys)[i])
  {
    OtherKeysFacts(keys);
  }

  /** The property order puts every array-index key before every other key. */
  lemma PropertyOrderIndexFirst(keys: seq<Option<char>>)
    ensures var r := PropertyOrder(keys);
      forall i, j :: 0 <= i < j < |r| && !IsIndexKey(r[i]) ==> !IsIndexKey(r[j])
  {
    IndexKeysAreIndexKeys(keys);
    OtherKeysAreNotIndexKeys(keys);
    var a, b := IndexKeysFrom(keys, 0), OtherKeys(keys);
    var r := a + b;
    forall i, j | 0 <= i < j < |r| && !IsIndexKey(r[i]) ensures !IsIndexKey(r[j]) {
      assert r[j] == b[j - |a|];
    }
  }

  /** The array-index keys of the property order come in ascending numeric order. */
  lemma PropertyOrderIndexAscending(keys: seq<Option<char>>)
    ensures var r := PropertyOrder(keys);
      forall i, j :: 0 <= i < j < |r| && IsIndexKey(r[j]) ==>
        IsIndexKey(r[i]) && JsText.DigitValue(r[i].value) < JsText.DigitValue(r[j].value)
  {
    IndexKeysFromFacts(keys, 0);
    OtherKeysAreNotIndexKeys(keys);
    var a, b := IndexKeysFrom(keys, 0), OtherKeys(keys);
    var r := a + b;
    forall i, j | 0 <= i < j < |r| && IsIndexKey(r[j])
      ensures IsIndexKey(r[i]) && JsText.DigitValue(r[i].value) < JsText.DigitValue(r[j].value)
    {
      assert j < |a|;
      assert r[i] == a[i] && r[j] == a[j];
    }
  }

  /** The four facts about the property order together. */
  lemma PropertyOrderFacts(keys: seq<Option<char>>)
    requires Distinct(keys)
    ensures Distinct(PropertyOrder(keys))
    ensures forall k :: k in PropertyOrder(keys) <==> k in keys
    ensures var r := PropertyOrder(keys);
      forall i, j :: 0 <= i < j < |r| && !IsIndexKey(r[i]) ==> !IsIndexKey(r[j])
    ensures var r := PropertyOrder(keys);
      forall i, j :: 0 <= i < j < |r| && IsIndexKey(r[j]) ==>
        IsIndexKey(r[i]) && JsText.DigitValue(r[i].value) < JsText.DigitValue(r[j].value)
  {
    PropertyOrderDistinct(keys);
    PropertyOrderKeys(keys);
    PropertyOrderIndexFirst(keys);
    PropertyOrderIndexAscending(keys);
  }

  /** The keys of the rows `organizeSeatsIntoRows` returns, in order. */
  function RowKeys(seats: seq<SeatCell>): seq<Option<char>> {
    PropertyOrder(FirstAppearance(seats))
  }

  /** The row keys are exactly the keys of the seats, each once. */
  lemma RowKeysFacts(seats: seq<SeatCell>)
    ensures Distinct(RowKeys(seats))
    ensures forall k :: k in RowKeys(seats) <==> exists i :: 0 <= i < |seats| && RowKey(seats[i]) == k
  {
    FirstAppearanceKeys(seats);
    PropertyOrderFacts(FirstAppearance(seats));
  }

  /** The rows of the grid: for every row key in dictionary order, the seats of that row
      sorted by number suffix. */
  function Grid(seats: seq<SeatCell>): (r: seq<seq<SeatCell>>)
    ensures |r| == |RowKeys(seats)|
  {
    var keys := RowKeys(seats);
    seq(|keys|, n requires 0 <= n < |keys| => SortBySuffix(SeatsInRow(seats, keys[n])))
  }

  /** Row `n` of the grid is not empty and starts with a seat of the `n`-th key. */
  lemma GridRowKey(seats: seq<SeatCell>, n: int)
    requires 0 <= n < |RowKeys(seats)|
    ensures Grid(seats)[n] != [] && RowKey(Grid(seats)[n][0]) == RowKeys(seats)[n]
  {
    var k := RowKeys(seats)[n];
    var row := SeatsInRow(seats, k);
    RowKeysFacts(seats);
    assert k in RowKeys(seats);
    var i :| 0 <= i < |seats| && RowKey(seats[i]) == k;
    SeatsInRowEmpty(seats, k);
    assert row != [];
    var sorted := Grid(seats)[n];
    assert sorted == SortBySuffix(row);
    assert sorted[0] in multiset(sorted);
    SeatsInRowCount(seats, k, sorted[0]);
  }

  /** No row of the grid is empty, and row `n` is the row of the `n`-th row key. */
  lemma GridRowsKeyed(seats: seq<SeatCell>)
    ensures |Grid(seats)| == |RowKeys(seats)|
    ensures forall n :: 0 <= n < |Grid(seats)| ==> Grid(seats)[n] != [] && RowKey(Grid(seats)[n][0]) == RowKeys(seats)[n]
  {
    forall n | 0 <= n < |Grid(seats)|
      ensures Grid(seats)[n] != [] && RowKey(Grid(seats)[n][0]) == RowKeys(seats)[n]
    {
      GridRowKey(seats, n);
    }
  }

  /** No seats give no rows. */
  lemma GridOfNoSeats()
    ensures Grid([]) == []
  {
    assert FirstAppearance([]) == [];
    assert IndexKeysFrom([], 0) == [] by {
      IndexKeysFromFacts([], 0);
    }
  }

  /** Two rows never share a key, and the rows of digit keys come before all others. */
  lemma GridRowsDistinctAndOrdered(seats: seq<SeatCell>)
    ensures var rows := Grid(seats);
      && (forall i :: 0 <= i < |rows| ==> rows[i] != [])
      && (forall i, j :: 0 <= i < j < |rows| ==> RowKey(rows[i][0]) != RowKey(rows[j][0]))
      && (forall i, j :: 0 <= i < j < |rows| && !IsIndexKey(RowKey(rows[i][0])) ==> !IsIndexKey(RowKey(rows[j][0])))
  {
    GridRowsKeyed(seats);
    FirstAppearanceKeys(seats);
    PropertyOrderFacts(FirstAppearance(seats));
  }

  /** Row `n` holds every seat of its key as often as the input does, and no other seat. */
  lemma GridRowCounts(seats: seq<SeatCell>, n: int, x: SeatCell)
    requires 0 <= n < |Grid(seats)|
    ensures Grid(seats)[n] != []
    ensures multiset(Grid(seats)[n])[x] == if RowKey(x) == RowKey(Grid(seats)[n][0]) then multiset(seats)[x] else 0
  {
    GridRowKey(seats, n);
    SeatsInRowCount(seats, RowKeys(seats)[n], x);
  }

  /** Every seat has the row of its key. */
  lemma GridRowOf(seats: seq<SeatCell>, x: SeatCell) returns (n: int)
    requires x in seats
    ensures 0 <= n < |Grid(seats)| && Grid(seats)[n] != [] && RowKey(Grid(seats)[n][0]) == RowKey(x)
  {
    var m :| 0 <= m < |seats| && seats[m] == x;
    RowKeysFacts(seats);
    var keys := RowKeys(seats);
    assert RowKey(seats[m]) == RowKey(x);
    assert RowKey(x) in keys;
    n :| 0 <= n < |keys| && keys[n] == RowKey(x);
    GridRowKey(seats, n);
  }

  /** A row whose suffixes are all numbers is in ascending order of suffix. */
  lemma GridRowSorted(seats: seq<SeatCell>, n: int)
    requires 0 <= n < |Grid(seats)| && KeysParse(Suffix, Grid(seats)[n])
    ensures AscendingBy(Suffix, Grid(seats)[n])
  {
    var row := SeatsInRow(seats, RowKeys(seats)[n]);
    var sorted := SortBySuffix(row);
    assert sorted == Grid(seats)[n];
    forall i | 0 <= i < |row| ensures Suffix(row[i]).Some? {
      assert row[i] in multiset(sorted);
      var j :| 0 <= j < |sorted| && sorted[j] == row[i];
    }
    SortByAscending(Suffix, row);
  }

  lemma RowStep(seats: seq<SeatCell>, i: int, k: Option<char>)
    requires 0 <= i < |seats|
    ensures SeatsInRow(seats[..i + 1], k) == SeatsInRow(seats[..i], k) + (if RowKey(seats[i]) == k then [seats[i]] else [])
  {
    assert seats[..i + 1][..i] == seats[..i];
  }

  lemma KeyStep(seats: seq<SeatCell>, i: int)
    requires 0 <= i < |seats|
    ensures FirstAppearance(seats[..i + 1]) ==
      if RowKey(seats[i]) in FirstAppearance(seats[..i]) then FirstAppearance(seats[..i])
      else FirstAppearance(seats[..i]) + [RowKey(seats[i])]
  {
    assert seats[..i + 1][..i] == seats[..i];
  }

  /** Pushing seat `i` onto its row's list extends every row of the prefix to the next prefix. */
  lemma PushStep(seats: seq<SeatCell>, i: int, groups: map<Option<char>, seq<SeatCell>>)
    requires 0 <= i < |seats| && RowKey(seats[i]) in groups
    requires forall k :: k in groups ==> groups[k] == SeatsInRow(seats[..i], k)
    ensures var g := groups[RowKey(seats[i]) := groups[RowKey(seats[i])] + [seats[i]]];
      forall k :: k in g ==> g[k] == SeatsInRow(seats[..i + 1], k)
  {
    var g := groups[RowKey(seats[i]) := groups[RowKey(seats[i])] + [seats[i]]];
    forall k | k in g
      ensures g[k] == SeatsInRow(seats[..i + 1], k)
    {
      RowStep(seats, i, k);
    }
  }

  /** The first pass of `organizeSeatsIntoRows`: every seat is pushed onto the list of its
      row key, a key's list being created when the key is first met. */
  method GroupByRowKey(seats: seq<SeatCell>) returns (groups: map<Option<char>, seq<SeatCell>>, keys: seq<Option<char>>)
    ensures keys == FirstAppearance(seats)
    ensures forall k :: k in groups <==> k in keys
    ensures forall k :: k in groups ==> groups[k] == SeatsInRow(seats, k)
  {
    groups := map[];
    keys := [];
    var i := 0;
    while i < |seats|
      invariant 0 <= i <= |seats|
      invariant keys == FirstAppearance(seats[..i])
      invariant forall k :: k in groups <==> k in keys
      invariant forall k :: k in groups ==> groups[k] == SeatsInRow(seats[..i], k)
    {
      var key := RowKey(seats[i]);
      KeyStep(seats, i);
      if key !in groups {
        FirstAppearanceKeys(seats[..i]);
        SeatsInRowEmpty(seats[..i], key);
        groups := groups[key := []];
        keys := keys + [key];
      }
      PushStep(seats, i, groups);
      groups := groups[key := groups[key] + [seats[i]]];
      i := i + 1;
    }
    assert seats[..i] == seats;
  }

  /** The groups named by `order`, each sorted by number suffix. */
  function SortedGroups(groups: map<Option<char>, seq<SeatCell>>, order: seq<Option<char>>): seq<seq<SeatCell>>
    requires forall n :: 0 <= n < |order| ==> order[n] in groups
  {
    seq(|order|, n requires 0 <= n < |order| => SortBySuffix(groups[order[n]]))
  }

  lemma SortedGroupsStep(groups: map<Option<char>, seq<SeatCell>>, order: seq<Option<char>>, j: int)
    requires forall n :: 0 <= n < |order| ==> order[n] in groups
    requires 0 <= j < |order|
    ensures SortedGroups(groups, order[..j + 1]) == SortedGroups(groups, order[..j]) + [SortBySuffix(groups[order[j]])]
  {
    var longer, shorter := SortedGroups(groups, order[..j + 1]), SortedGroups(groups, order[..j]);
    assert |longer| == j + 1 && |shorter| == j;
    forall n | 0 <= n < j + 1
      ensures longer[n] == (shorter + [SortBySuffix(groups[order[j]])])[n]
    {
      assert order[..j + 1][n] == order[n];
      if n < j {
        assert order[..j][n] == order[n];
      }
    }
  }

  /** `organizeSeatsIntoRows`: groups the seats by row key in a dictionary, sorts every
      group by number suffix and returns the groups in the dictionary's key order. */
  method OrganizeSeatsIntoRows(seats: seq<SeatCell>) returns (rows: seq<seq<SeatCell>>)
    ensures rows == Grid(seats)
  {
    if |seats| == 0 {
      GridOfNoSeats();
      return [];
    }
    var groups, keys := GroupByRowKey(seats);
    var order := PropertyOrder(keys);
    GroupsCoverOrder(seats, groups, keys);
    rows := [];
    var j := 0;
    while j < |order|
      invariant 0 <= j <= |order|
      invariant rows == SortedGroups(groups, order[..j])
    {
      SortedGroupsStep(groups, order, j);
      rows := rows + [SortBySuffix(groups[order[j]])];
      j := j + 1;
    }
    assert order[..j] == order;
    SortedGroupsAreGrid(seats, groups, keys);
  }

  lemma GroupsCoverOrder(seats: seq<SeatCell>, groups: map<Option<char>, seq<SeatCell>>, keys: seq<Option<char>>)
    requires keys == FirstAppearance(seats)
    requires forall k :: k in groups <==> k in keys
    ensures forall n :: 0 <= n < |PropertyOrder(keys)| ==> PropertyOrder(keys)[n] in groups
  {
    FirstAppearanceKeys(seats);
    PropertyOrderFacts(keys);
  }

  lemma SortedGroupsAreGrid(seats: seq<SeatCell>, groups: map<Option<char>, seq<SeatCell>>, keys: seq<Option<char>>)
    requires keys == FirstAppearance(seats)
    requires forall k :: k in groups <==> k in keys
    requires forall k :: k in groups ==> groups[k] == SeatsInRow(seats, k)
    requires forall n :: 0 <= n < |PropertyOrder(keys)| ==> PropertyOrder(keys)[n] in groups
    ensures SortedGroups(groups, PropertyOrder(keys)) == Grid(seats)
  {
  }
}
