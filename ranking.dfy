/** The catalog scan of `findOpenRestaurants`: evaluate every line, collect the
    open restaurants in line order, then sort them by `closeIn` with the stable
    `Array.prototype.sort` and the comparator `a.closeIn - b.closeIn`. */
module Ranking {
  import opened Wrappers
  import opened OpenRestaurants

  // ---------------------------------------------------------------------------
  // The stable sort by closeIn
  // ---------------------------------------------------------------------------

  predicate SortedByCloseIn(s: seq<OpenRestaurant>)
  {
    forall i, j :: 0 <= i < j < |s| ==> s[i].closeIn <= s[j].closeIn
  }

  /** The records of `s` whose `closeIn` is `k`, in their order in `s`. A sort of
      `s` is stable iff it leaves each of these subsequences as it is. */
  function WithCloseIn(s: seq<OpenRestaurant>, k: int): seq<OpenRestaurant>
  {
    if |s| == 0 then []
    else WithCloseIn(s[..|s| - 1], k) + (if s[|s| - 1].closeIn == k then [s[|s| - 1]] else [])
  }

  /** Insert `x` into `s` after every record whose `closeIn` is not larger,
      scanning from the back as insertion sort does. */
  function Insert(s: seq<OpenRestaurant>, x: OpenRestaurant): (r: seq<OpenRestaurant>)
    ensures |r| == |s| + 1
  {
    if |s| == 0 || s[|s| - 1].closeIn <= x.closeIn then s + [x]
    else Insert(s[..|s| - 1], x) + [s[|s| - 1]]
  }

  /** The stable sort by `closeIn`, ascending. */
  function InsertionSort(s: seq<OpenRestaurant>): (r: seq<OpenRestaurant>)
    ensures |r| == |s|
  {
    if |s| == 0 then [] else Insert(InsertionSort(s[..|s| - 1]), s[|s| - 1])
  }

  lemma {:induction false} InsertPermutes(s: seq<OpenRestaurant>, x: OpenRestaurant)
    ensures multiset(Insert(s, x)) == multiset(s) + multiset{x}
    decreases |s|
  {
    if |s| == 0 || s[|s| - 1].closeIn <= x.closeIn {
    } else {
      var init := s[..|s| - 1];
      InsertPermutes(init, x);
      assert s == init + [s[|s| - 1]];
    }
  }

  /** Every record of `s` has a key of at most `b`. */
  predicate KeysAtMost(s: seq<OpenRestaurant>, b: int)
  {
    forall i :: 0 <= i < |s| ==> s[i].closeIn <= b
  }

  /** Insertion adds no key larger than the larger of `x`'s and the bound of `s`. */
  lemma {:induction false} InsertKeysAtMost(s: seq<OpenRestaurant>, x: OpenRestaurant, b: int)
    requires KeysAtMost(s, b) && x.closeIn <= b
    ensures KeysAtMost(Insert(s, x), b)
    decreases |s|
  {
    if |s| == 0 || s[|s| - 1].closeIn <= x.closeIn {
    } else {
      var init := s[..|s| - 1];
      assert KeysAtMost(init, b) by {
        assert forall i :: 0 <= i < |init| ==> init[i] == s[i];
      }
      InsertKeysAtMost(init, x, b);
    }
  }

  lemma {:induction false} InsertSorted(s: seq<OpenRestaurant>, x: OpenRestaurant)
    requires SortedByCloseIn(s)
    ensures SortedByCloseIn(Insert(s, x))
    decreases |s|
  {
    if |s| == 0 || s[|s| - 1].closeIn <= x.closeIn {
    } else {
      var init := s[..|s| - 1];
      var last := s[|s| - 1];
      assert SortedByCloseIn(init) && KeysAtMost(init, last.closeIn) by {
        assert forall i :: 0 <= i < |init| ==> init[i] == s[i];
      }
      InsertSorted(init, x);
      InsertKeysAtMost(init, x, last.closeIn);
      var ins := Insert(init, x);
      assert Insert(s, x) == ins + [last];
    }
  }

  lemma {:induction false} WithCloseInConcat(a: seq<OpenRestaurant>, b: seq<OpenRestaurant>, k: int)
    ensures WithCloseIn(a + b, k) == WithCloseIn(a, k) + WithCloseIn(b, k)
    decreases |b|
  {
    if |b| == 0 {
      assert a + b == a;
    } else {
      var init := b[..|b| - 1];
      assert (a + b)[..|a + b| - 1] == a + init;
      WithCloseInConcat(a, init, k);
    }
  }

  /** Insertion puts `x` behind every record with the same key, so each key's
      subsequence only gains `x` at its end. */
  lemma {:induction false} InsertStable(s: seq<OpenRestaurant>, x: OpenRestaurant, k: int)
    ensures WithCloseIn(Insert(s, x), k) == WithCloseIn(s, k) + WithCloseIn([x], k)
    decreases |s|
  {
    if |s| == 0 || s[|s| - 1].closeIn <= x.closeIn {
      WithCloseInConcat(s, [x], k);
    } else {
      var init := s[..|s| - 1];
      var last := s[|s| - 1];
      var ins := Insert(init, x);
      InsertStable(init, x, k);
      assert Insert(s, x) == ins + [last];
      WithCloseInConcat(ins, [last], k);
      assert s == init + [last];
      WithCloseInConcat(init, [last], k);
      SingleKey(x, k);
      SingleKey(last, k);
      var wi, wins := WithCloseIn(init, k), WithCloseIn(ins, k);
      if last.closeIn == k {
        assert wi + [] == wi;
        assert wins == wi;
        assert (wi + [last]) + [] == wi + [last];
      } else {
        assert wi + [] == wi;
        assert wins + [] == wins;
      }
    }
  }

  lemma SingleKey(x: OpenRestaurant, k: int)
    ensures WithCloseIn([x], k) == if x.closeIn == k then [x] else []
  {
    assert [x][..0] == [];
  }

  /** The sort orders by `closeIn`, keeps every record, and keeps records with
      equal `closeIn` in their input order. */
  lemma {:induction false} InsertionSortCorrect(s: seq<OpenRestaurant>)
    ensures SortedByCloseIn(InsertionSort(s))
    ensures multiset(InsertionSort(s)) == multiset(s)
    ensures forall k :: WithCloseIn(InsertionSort(s), k) == WithCloseIn(s, k)
    decreases |s|
  {
    if |s| > 0 {
      var init := s[..|s| - 1];
      var last := s[|s| - 1];
      InsertionSortCorrect(init);
      InsertSorted(InsertionSort(init), last);
      InsertPermutes(InsertionSort(init), last);
      assert s == init + [last];
      forall k ensures WithCloseIn(InsertionSort(s), k) == WithCloseIn(s, k) {
        InsertStable(InsertionSort(init), last, k);
        WithCloseInConcat(init, [last], k);
        assert [last][..0] == [];
      }
    }
  }

  /** Where the scan from the back stops, `x` goes: behind position `j` when
      every later record has a larger key and the one before does not. */
  lemma {:induction false} InsertAt(s: seq<OpenRestaurant>, x: OpenRestaurant, j: int)
    requires 0 <= j <= |s|
    requires forall k :: j <= k < |s| ==> s[k].closeIn > x.closeIn
    requires j == 0 || s[j - 1].closeIn <= x.closeIn
    ensures Insert(s, x) == s[..j] + [x] + s[j..]
    decreases |s|
  {
    if j < |s| {
      var init := s[..|s| - 1];
      InsertAt(init, x, j);
      assert init[..j] == s[..j];
      assert init[j..] + [s[|s| - 1]] == s[j..];
    }
  }

  /** Move `a[i]` left past every record of `a[..i]` with a larger key. */
  method InsertInPlace(a: array<OpenRestaurant>, i: int)
    requires 0 <= i < a.Length
    modifies a
    ensures a[..i + 1] == Insert(old(a[..i]), old(a[i]))
    ensures forall k :: i < k < a.Length ==> a[k] == old(a[k])
  {
    var x := a[i];
    ghost var sorted := a[..i];
    var j := i;
    while j > 0 && a[j - 1].closeIn > x.closeIn
      invariant 0 <= j <= i
      invariant forall k :: 0 <= k < j ==> a[k] == sorted[k]
      invariant forall k :: j < k <= i ==> a[k] == sorted[k - 1]
      invariant forall k :: i < k < a.Length ==> a[k] == old(a[k])
      invariant forall k :: j <= k < i ==> sorted[k].closeIn > x.closeIn
    {
      a[j] := a[j - 1];
      j := j - 1;
    }
    a[j] := x;
    InsertAt(sorted, x, j);
    ShiftedInsert(sorted, x, j, a[..i + 1]);
  }

  /** The array prefix the shifting leaves behind is `x` placed at `j`. */
  lemma ShiftedInsert(sorted: seq<OpenRestaurant>, x: OpenRestaurant, j: int, t: seq<OpenRestaurant>)
    requires 0 <= j <= |sorted| && |t| == |sorted| + 1
    requires forall k :: 0 <= k < j ==> t[k] == sorted[k]
    requires t[j] == x
    requires forall k :: j < k < |t| ==> t[k] == sorted[k - 1]
    ensures t == sorted[..j] + [x] + sorted[j..]
  {
    var u := sorted[..j] + [x] + sorted[j..];
    assert forall k :: 0 <= k < j ==> u[k] == sorted[k];
    assert forall k :: j < k < |u| ==> u[k] == sorted[k - 1];
  }

  /** In-place insertion sort of the collected records: the stable sort that
      `restaurants.sort((a, b) => a.closeIn - b.closeIn)` performs. */
  method SortByCloseIn(a: array<OpenRestaurant>)
    modifies a
    ensures a[..] == InsertionSort(old(a[..]))
  {
    ghost var input := a[..];
    var i := 0;
    while i < a.Length
      invariant 0 <= i <= a.Length
      invariant a[..i] == InsertionSort(input[..i])
      invariant forall k :: i <= k < a.Length ==> a[k] == input[k]
    {
      assert input[..i + 1] == input[..i] + [input[i]];
      InsertInPlace(a, i);
      i := i + 1;
    }
    assert a[..] == a[..a.Length] && input == input[..a.Length];
  }

  // ---------------------------------------------------------------------------
  // The scan
  // ---------------------------------------------------------------------------

  /** What the line reader delivers: the lines it emitted before it closed or
      reported an error, and whether it reported one (a missing file delivers no
      line and fails). The error is caught and logged; it does not change the
      result. */
  datatype LineSource = LineSource(lines: seq<string>, failed: bool)

  /** What `processRestaurant` made of one line. */
  type LineResult = Result<Option<OpenRestaurant>, ScanError>

  /** The `'line'` callback over a sequence of evaluated lines: push every open
      restaurant, in order; the first line that threw ends the scan with its error. */
  function Collected(results: seq<LineResult>): (r: Result<seq<OpenRestaurant>, ScanError>)
    ensures r.Success? ==> |r.value| <= |results|
  {
    if |results| == 0 then Success([])
    else
      match Collected(results[..|results| - 1])
      case Failure(e) => Failure(e)
      case Success(acc) =>
        match results[|results| - 1]
        case Failure(e) => Failure(e)
        case Success(None) => Success(acc)
        case Success(Some(r)) => Success(acc + [r])
  }

  /** Every line, evaluated at `day`. */
  function LineResults(day: Instant, lines: seq<string>): (results: seq<LineResult>)
    ensures |results| == |lines|
    ensures forall i :: 0 <= i < |lines| ==> results[i] == ProcessRestaurant(day, lines[i])
  {
    seq(|lines|, i requires 0 <= i < |lines| => ProcessRestaurant(day, lines[i]))
  }

  /** The open restaurants of a sequence of lines, in line order. */
  function OpenRecords(day: Instant, lines: seq<string>): (r: Result<seq<OpenRestaurant>, ScanError>)
    ensures r.Success? ==> |r.value| <= |lines|
  {
    Collected(LineResults(day, lines))
  }

  /** The result of `findOpenRestaurants`: the open restaurants sorted stably by `closeIn`. */
  function Ranked(source: LineSource, day: Instant): (r: Result<seq<OpenRestaurant>, ScanError>)
    ensures r.Success? ==> |r.value| <= |source.lines|
  {
    match OpenRecords(day, source.lines)
    case Failure(e) => Failure(e)
    case Success(acc) => Success(InsertionSort(acc))
  }

  /** The collection fails iff some line threw. */
  lemma {:induction false} CollectedFailure(results: seq<LineResult>)
    ensures Collected(results).Failure? <==> exists i :: 0 <= i < |results| && results[i].Failure?
  {
    if |results| > 0 {
      var init := results[..|results| - 1];
      CollectedFailure(init);
      if exists i :: 0 <= i < |results| && results[i].Failure? {
        var i :| 0 <= i < |results| && results[i].Failure?;
        if i < |init| {
          assert init[i].Failure?;
        }
      }
      if exists i :: 0 <= i < |init| && init[i].Failure? {
        var i :| 0 <= i < |init| && init[i].Failure?;
        assert results[i] == init[i];
      }
    }
  }

  /** The positions of the results that found a restaurant open, in increasing order. */
  ghost function OpenPositions(results: seq<LineResult>): seq<int>
  {
    if |results| == 0 then []
    else
      var last := |results| - 1;
      OpenPositions(results[..last]) + if results[last].Success? && results[last].value.Some? then [last] else []
  }

  /** `positions[k]` is the result that produced `value[k]`: the positions
      increase and take in every result that found a restaurant open. */
  ghost predicate InLineOrder(results: seq<LineResult>, value: seq<OpenRestaurant>, positions: seq<int>)
  {
    |positions| == |value| &&
    (forall k :: 0 <= k < |positions| ==> 0 <= positions[k] < |results| && results[positions[k]] == Success(Some(value[k]))) &&
    (forall k, l :: 0 <= k < l < |positions| ==> positions[k] < positions[l]) &&
    (forall i :: 0 <= i < |results| && results[i].Success? && results[i].value.Some? ==> i in positions)
  }

  /** A successful collection holds exactly the restaurants the lines found
      open: one per open line, in line order. */
  lemma {:induction false} CollectedInLineOrder(results: seq<LineResult>)
    requires Collected(results).Success?
    ensures InLineOrder(results, Collected(results).value, OpenPositions(results))
  {
    if |results| > 0 {
      var last := |results| - 1;
      var init := results[..last];
      CollectedInLineOrder(init);
      OrderStep(results, Collected(init).value, OpenPositions(init));
    }
  }

  /** The step of `CollectedInLineOrder`: the last result extends the order of the others. */
  lemma OrderStep(results: seq<LineResult>, acc: seq<OpenRestaurant>, q: seq<int>)
    requires |results| > 0
    requires var init := results[..|results| - 1];
      Collected(init) == Success(acc) && OpenPositions(init) == q && InLineOrder(init, acc, q)
    requires Collected(results).Success?
    ensures InLineOrder(results, Collected(results).value, OpenPositions(results))
  {
    var last := |results| - 1;
    match results[last]
    case Success(Some(r)) =>
      assert Collected(results).value == acc + [r] && OpenPositions(results) == q + [last];
      OrderPush(results, acc, q, r);
    case Success(None) =>
      assert Collected(results).value == acc && OpenPositions(results) == q;
      OrderKeep(results, acc, q);
  }

  /** A closed last line changes neither the records nor their positions. */
  lemma OrderKeep(results: seq<LineResult>, acc: seq<OpenRestaurant>, q: seq<int>)
    requires |results| > 0 && results[|results| - 1] == Success(None)
    requires InLineOrder(results[..|results| - 1], acc, q)
    ensures InLineOrder(results, acc, q)
  {
    var init := results[..|results| - 1];
    forall k | 0 <= k < |q| ensures results[q[k]] == Success(Some(acc[k])) {
      assert init[q[k]] == results[q[k]];
    }
    forall i | 0 <= i < |results| && results[i].Success? && results[i].value.Some? ensures i in q {
      assert init[i] == results[i];
    }
  }

  /** An open last line appends its record and its position. */
  lemma OrderPush(results: seq<LineResult>, acc: seq<OpenRestaurant>, q: seq<int>, r: OpenRestaurant)
    requires |results| > 0 && results[|results| - 1] == Success(Some(r))
    requires InLineOrder(results[..|results| - 1], acc, q)
    ensures InLineOrder(results, acc + [r], q + [|results| - 1])
  {
    var last := |results| - 1;
    var init := results[..last];
    var value, p := acc + [r], q + [last];
    forall k | 0 <= k < |p| ensures 0 <= p[k] < |results| && results[p[k]] == Success(Some(value[k])) {
      if k < |q| {
        assert p[k] == q[k] && value[k] == acc[k];
        assert init[q[k]] == results[q[k]];
      }
    }
    forall k, l | 0 <= k < l < |p| ensures p[k] < p[l] {
      if l < |q| {
        assert p[k] == q[k] && p[l] == q[l];
      } else {
        assert p[k] == q[k] < last;
      }
    }
    forall i | 0 <= i < |results| && results[i].Success? && results[i].value.Some? ensures i in p {
      if i < last {
        assert init[i] == results[i];
        assert i in q;
      } else {
        assert p[|p| - 1] == i;
      }
    }
  }

  /** As a set: a successful collection holds the records of the open lines. */
  lemma CollectedMembers(results: seq<LineResult>)
    requires Collected(results).Success?
    ensures forall x :: x in Collected(results).value <==> exists i :: 0 <= i < |results| && results[i] == Success(Some(x))
  {
    var value, p := Collected(results).value, OpenPositions(results);
    CollectedInLineOrder(results);
    forall x | x in value ensures exists i :: 0 <= i < |results| && results[i] == Success(Some(x)) {
      var k :| 0 <= k < |value| && value[k] == x;
      assert results[p[k]] == Success(Some(x));
    }
    forall i | 0 <= i < |results| && results[i].Success? && results[i].value.Some? ensures results[i].value.value in value {
      assert i in p;
      var k :| 0 <= k < |p| && p[k] == i;
      assert value[k] == results[i].value.value;
    }
  }

  /** A scan fails iff some line is malformed. */
  lemma OpenRecordsFailure(day: Instant, lines: seq<string>)
    ensures OpenRecords(day, lines).Failure? <==> exists i :: 0 <= i < |lines| && ProcessRestaurant(day, lines[i]).Failure?
  {
    var results := LineResults(day, lines);
    CollectedFailure(results);
    if exists i :: 0 <= i < |results| && results[i].Failure? {
      var i :| 0 <= i < |results| && results[i].Failure?;
      assert ProcessRestaurant(day, lines[i]).Failure?;
    }
  }

  /** A successful scan holds exactly the open restaurants of the lines, one
      per open line and in line order, each with a positive time until closing. */
  lemma OpenRecordsMembers(day: Instant, lines: seq<string>)
    requires OpenRecords(day, lines).Success?
    ensures InLineOrder(LineResults(day, lines), OpenRecords(day, lines).value, OpenPositions(LineResults(day, lines)))
    ensures forall x :: x in OpenRecords(day, lines).value <==>
      exists i :: 0 <= i < |lines| && ProcessRestaurant(day, lines[i]) == Success(Some(x))
    ensures forall x :: x in OpenRecords(day, lines).value ==> x.closeIn > 0
  {
    var results := LineResults(day, lines);
    CollectedInLineOrder(results);
    CollectedMembers(results);
    forall x | x in OpenRecords(day, lines).value ensures x.closeIn > 0 {
      var i :| 0 <= i < |results| && results[i] == Success(Some(x));
      assert ProcessRestaurant(day, lines[i]) == Success(Some(x));
    }
  }

  /** Once a prefix of the results holds a failure, the whole collection fails with it. */
  lemma {:induction false} PrefixFailure(results: seq<LineResult>, n: nat)
    requires n <= |results| && Collected(results[..n]).Failure?
    ensures Collected(results) == Collected(results[..n])
    decreases |results| - n
  {
    if n < |results| {
      assert results[..n + 1][..n] == results[..n];
      PrefixFailure(results, n + 1);
    } else {
      assert results[..n] == results;
    }
  }

  /** `findOpenRestaurants(source, date)`: collect the open restaurants line by
      line, then sort them in place by `closeIn`. */
  method FindOpenRestaurants(source: LineSource, day: Instant) returns (r: Result<seq<OpenRestaurant>, ScanError>)
    ensures r == Ranked(source, day)
    ensures r.Success? ==>
      OpenRecords(day, source.lines).Success? &&
      SortedByCloseIn(r.value) &&
      multiset(r.value) == multiset(OpenRecords(day, source.lines).value) &&
      forall k :: WithCloseIn(r.value, k) == WithCloseIn(OpenRecords(day, source.lines).value, k)
  {
    var collected := CollectOpenRestaurants(day, source.lines);
    if collected.Failure? {
      return Failure(collected.error);
    }
    var sorted := SortedCopy(collected.value);
    r := Success(sorted);
    RankedProperties(source, day);
  }

  /** The `'line'` listener run over every line the reader delivers: push each
      open restaurant; a line that throws ends the scan. */
  method CollectOpenRestaurants(day: Instant, lines: seq<string>) returns (r: Result<seq<OpenRestaurant>, ScanError>)
    ensures r == OpenRecords(day, lines)
  {
    ghost var results := LineResults(day, lines);
    var restaurants: seq<OpenRestaurant> := [];
    var i := 0;
    while i < |lines|
      invariant 0 <= i <= |lines|
      invariant Collected(results[..i]) == Success(restaurants)
    {
      var openRestaurant := ProcessRestaurant(day, lines[i]);
      assert results[..i + 1][..i] == results[..i];
      assert results[..i + 1][i] == openRestaurant;
      if openRestaurant.Failure? {
        // The exception escapes the line listener and the call never completes.
        PrefixFailure(results, i + 1);
        return Failure(openRestaurant.error);
      }
      if openRestaurant.value.Some? {
        restaurants := restaurants + [openRestaurant.value.value];
      }
      i := i + 1;
    }
    assert results[..|lines|] == results;
    r := Success(restaurants);
  }

  /** The collected records copied into an array and sorted there. */
  method SortedCopy(restaurants: seq<OpenRestaurant>) returns (sorted: seq<OpenRestaurant>)
    ensures sorted == InsertionSort(restaurants)
  {
    var a := new OpenRestaurant[|restaurants|](k requires 0 <= k < |restaurants| => restaurants[k]);
    assert a[..] == restaurants;
    SortByCloseIn(a);
    sorted := a[..];
  }

  /** A successful ranking is the scan's records, sorted stably by `closeIn`. */
  lemma RankedProperties(source: LineSource, day: Instant)
    ensures Ranked(source, day).Success? ==>
      OpenRecords(day, source.lines).Success? &&
      SortedByCloseIn(Ranked(source, day).value) &&
      multiset(Ranked(source, day).value) == multiset(OpenRecords(day, source.lines).value) &&
      forall k :: WithCloseIn(Ranked(source, day).value, k) == WithCloseIn(OpenRecords(day, source.lines).value, k)
  {
    if OpenRecords(day, source.lines).Success? {
      InsertionSortCorrect(OpenRecords(day, source.lines).value);
    }
  }

  /** A source that delivers no line, such as a file that cannot be opened,
      ranks no restaurant. */
  lemma UnreadableSourceIsEmpty(day: Instant, failed: bool)
    ensures Ranked(LineSource([], failed), day) == Success([])
  {
  }

  /** Two sequences that are both ordered by `closeIn` and have the same
      records for every `closeIn` are equal: the sorted, stable result is unique. */
  lemma {:induction false} StableSortUnique(a: seq<OpenRestaurant>, b: seq<OpenRestaurant>)
    requires SortedByCloseIn(a) && SortedByCloseIn(b)
    requires forall k :: WithCloseIn(a, k) == WithCloseIn(b, k)
    ensures a == b
    decreases |a| + |b|
  {
    if |a| == 0 && |b| == 0 {
    } else if |a| == 0 {
      LastKeyPresent(b);
    } else if |b| == 0 {
      LastKeyPresent(a);
    } else {
      var x, y := a[|a| - 1], b[|b| - 1];
      assert WithCloseIn(b, y.closeIn) == WithCloseIn(b[..|b| - 1], y.closeIn) + [y];
      assert WithCloseIn(a, x.closeIn) == WithCloseIn(a[..|a| - 1], x.closeIn) + [x];
      KeyedMember(a, y.closeIn);
      KeyedMember(b, x.closeIn);
      var a', b' := a[..|a| - 1], b[..|b| - 1];
      assert x.closeIn == y.closeIn;
      assert x == y by {
        var wa, wb := WithCloseIn(a, x.closeIn), WithCloseIn(b, x.closeIn);
        assert wa == WithCloseIn(a', x.closeIn) + [x];
        assert wb == WithCloseIn(b', x.closeIn) + [y];
        assert wa == wb;
        assert wa[|wa| - 1] == x && wb[|wb| - 1] == y;
      }
      forall k ensures WithCloseIn(a', k) == WithCloseIn(b', k) {
        var e := if x.closeIn == k then [x] else [];
        assert WithCloseIn(a, k) == WithCloseIn(a', k) + e;
        assert WithCloseIn(b, k) == WithCloseIn(b', k) + e;
        assert WithCloseIn(a', k) == WithCloseIn(a, k)[..|WithCloseIn(a, k)| - |e|];
        assert WithCloseIn(b', k) == WithCloseIn(b, k)[..|WithCloseIn(b, k)| - |e|];
      }
      StableSortUnique(a', b');
      assert a == a' + [x] && b == b' + [y];
    }
  }

  /** The key of the last record of a non-empty sequence selects that record. */
  lemma LastKeyPresent(s: seq<OpenRestaurant>)
    requires |s| > 0
    ensures WithCloseIn(s, s[|s| - 1].closeIn) != []
  {
    assert WithCloseIn(s, s[|s| - 1].closeIn) == WithCloseIn(s[..|s| - 1], s[|s| - 1].closeIn) + [s[|s| - 1]];
  }

  /** In a sorted sequence, every key that occurs is at most the last key. */
  lemma {:induction false} KeyedMember(s: seq<OpenRestaurant>, k: int)
    requires |s| > 0 && SortedByCloseIn(s)
    requires |WithCloseIn(s, k)| > 0
    ensures k <= s[|s| - 1].closeIn
    decreases |s|
  {
    if s[|s| - 1].closeIn != k {
      var init := s[..|s| - 1];
      assert |WithCloseIn(init, k)| > 0;
      assert |init| > 0;
      assert SortedByCloseIn(init);
      KeyedMember(init, k);
      assert init[|init| - 1].closeIn <= s[|s| - 1].closeIn;
    }
  }
}
