/**
 * The aggregation half of `process_text`: from the list of token lengths it builds
 * the word count, the average length, the `Counter` of lengths, the highest count,
 * the lengths that reach it, and the histogram re-ordered by length.
 *
 * `Count` is the reference definition of how often a length occurs; the histogram is
 * built the way `Counter` builds it (one update per length, new keys appended), and
 * the lemmas at the end tie every field of the result back to `Count`.
 */
module Statistics {

  /** A histogram entry: a token length and the number of tokens of that length. */
  type Entry = (nat, nat)

  /** The dictionary `process_text` returns; the average is exact, before rounding. */
  datatype Stats = Stats(
    wordCount: nat,
    averageWordLength: real,
    distribution: seq<Entry>,
    mostFrequent: seq<nat>,
    occurrences: nat)

  // ---------------------------------------------------------------------------
  // Reference definitions over the list of lengths
  // ---------------------------------------------------------------------------

  /** How many times `y` occurs in `xs`. */
  function Count(xs: seq<nat>, y: nat): nat {
    if xs == [] then 0
    else Count(xs[..|xs| - 1], y) + (if xs[|xs| - 1] == y then 1 else 0)
  }

  lemma {:induction false} CountPositive(xs: seq<nat>, y: nat)
    ensures Count(xs, y) > 0 <==> y in xs
  {
    if xs != [] {
      CountPositive(xs[..|xs| - 1], y);
      assert xs == xs[..|xs| - 1] + [xs[|xs| - 1]];
    }
  }

  function Sum(xs: seq<nat>): nat {
    if xs == [] then 0 else Sum(xs[..|xs| - 1]) + xs[|xs| - 1]
  }

  /** Every token has at least one character, so the lengths add up to at least their number. */
  lemma {:induction false} SumAtLeastCount(xs: seq<nat>)
    requires forall k :: 0 <= k < |xs| ==> xs[k] >= 1
    ensures Sum(xs) >= |xs|
  {
    if xs != [] {
      SumAtLeastCount(xs[..|xs| - 1]);
    }
  }

  /** The index of the first `y` in `xs`, or |xs| when there is none. */
  function FirstIndex(xs: seq<nat>, y: nat): (r: nat)
    ensures r <= |xs| && (r < |xs| <==> y in xs)
    ensures r < |xs| ==> xs[r] == y
    ensures forall j :: 0 <= j < r ==> xs[j] != y
  {
    if xs == [] then 0 else if xs[0] == y then 0 else 1 + FirstIndex(xs[1..], y)
  }

  /** Appending never moves the first occurrence of a value already present. */
  lemma FirstIndexAppend(xs: seq<nat>, x: nat, y: nat)
    ensures FirstIndex(xs + [x], y) == if y in xs then FirstIndex(xs, y) else if y == x then |xs| else |xs| + 1
  {
    var r := FirstIndex(xs + [x], y);
    var q := FirstIndex(xs, y);
    if y in xs {
      assert (xs + [x])[q] == y;
    } else if y == x {
      assert (xs + [x])[|xs|] == y;
    } else {
      assert y !in xs + [x];
    }
  }

  /** The lengths in `ys` all occur in `xs` and come in the order of their first occurrence there. */
  predicate FirstSeenOrder(xs: seq<nat>, ys: seq<nat>) {
    && (forall k :: 0 <= k < |ys| ==> ys[k] in xs)
    && (forall a, b :: 0 <= a < b < |ys| ==> FirstIndex(xs, ys[a]) < FirstIndex(xs, ys[b]))
  }

  // ---------------------------------------------------------------------------
  // The histogram, as Counter builds it
  // ---------------------------------------------------------------------------

  /** Some entry has key `y`. */
  predicate HasKey(items: seq<Entry>, y: nat) {
    exists k :: 0 <= k < |items| && items[k].0 == y
  }

  predicate DistinctKeys(items: seq<Entry>) {
    forall a, b :: 0 <= a < b < |items| ==> items[a].0 != items[b].0
  }

  function SumCounts(items: seq<Entry>): nat {
    if items == [] then 0 else items[0].1 + SumCounts(items[1..])
  }

  /** Every entry's key occurs in `xs`, and its count is how often. */
  predicate CountsMatch(xs: seq<nat>, items: seq<Entry>) {
    forall k :: 0 <= k < |items| ==> items[k].0 in xs && items[k].1 == Count(xs, items[k].0)
  }

  /** Every value of `xs` is a key. */
  predicate CoversAll(xs: seq<nat>, items: seq<Entry>) {
    forall y :: y in xs ==> HasKey(items, y)
  }

  /** The keys come in the order of their first occurrence in `xs`. */
  predicate KeysFirstSeen(xs: seq<nat>, items: seq<Entry>) {
    forall a, b :: 0 <= a < b < |items| ==> FirstIndex(xs, items[a].0) < FirstIndex(xs, items[b].0)
  }

  /** `items` is what `Counter(xs).items()` yields. */
  predicate IsCounter(xs: seq<nat>, items: seq<Entry>) {
    && DistinctKeys(items)
    && CountsMatch(xs, items)
    && CoversAll(xs, items)
    && KeysFirstSeen(xs, items)
    && SumCounts(items) == |xs|
  }

  /** Counter's update for one more `x`: its count goes up by one, or it is appended with count one. */
  function Bump(items: seq<Entry>, x: nat): (r: seq<Entry>)
    requires DistinctKeys(items)
    ensures DistinctKeys(r)
    ensures |r| == |items| + (if HasKey(items, x) then 0 else 1)
    ensures forall k :: 0 <= k < |items| ==>
      r[k] == (items[k].0, items[k].1 + (if items[k].0 == x then 1 else 0))
    ensures !HasKey(items, x) ==> r[|items|] == (x, 1)
    ensures SumCounts(r) == SumCounts(items) + 1
  {
    if items == [] then
      assert !HasKey(items, x);
      [(x, 1)]
    else if items[0].0 == x then
      BumpAtHead(items, x);
      [(x, items[0].1 + 1)] + items[1..]
    else
      var rest := Bump(items[1..], x);
      BumpPastHead(items, x, rest);
      [items[0]] + rest
  }

  /** What Bump promises, as one predicate for the two lemmas below. */
  predicate Bumped(items: seq<Entry>, x: nat, r: seq<Entry>) {
    && DistinctKeys(r)
    && |r| == |items| + (if HasKey(items, x) then 0 else 1)
    && (forall k :: 0 <= k < |items| ==>
         r[k] == (items[k].0, items[k].1 + (if items[k].0 == x then 1 else 0)))
    && (!HasKey(items, x) ==> r[|items|] == (x, 1))
    && SumCounts(r) == SumCounts(items) + 1
  }

  /** When the first entry has key `x`, its count goes up by one and the rest is unchanged. */
  lemma BumpAtHead(items: seq<Entry>, x: nat)
    requires items != [] && items[0].0 == x && DistinctKeys(items)
    ensures Bumped(items, x, [(x, items[0].1 + 1)] + items[1..])
  {
    var r := [(x, items[0].1 + 1)] + items[1..];
    assert r[1..] == items[1..];
    assert HasKey(items, x) by {
      assert items[0].0 == x;
    }
    SameKeysDistinct(items, r);
  }

  /** Otherwise the first entry stays in front of the bumped rest. */
  lemma BumpPastHead(items: seq<Entry>, x: nat, rest: seq<Entry>)
    requires items != [] && items[0].0 != x && DistinctKeys(items)
    requires Bumped(items[1..], x, rest)
    ensures Bumped(items, x, [items[0]] + rest)
  {
    HasKeyTail(items, x);
    var r := [items[0]] + rest;
    assert r[1..] == rest;
    forall k | 0 <= k < |items|
      ensures r[k] == (items[k].0, items[k].1 + (if items[k].0 == x then 1 else 0))
    {
      if k > 0 {
        assert r[k] == rest[k - 1] && items[k] == items[1..][k - 1];
      }
    }
    ConsDistinct(items, rest, x);
  }

  /** Changing only the counts keeps the keys distinct. */
  lemma SameKeysDistinct(items: seq<Entry>, r: seq<Entry>)
    requires DistinctKeys(items) && |r| == |items|
    requires forall k :: 0 <= k < |items| ==> r[k].0 == items[k].0
    ensures DistinctKeys(r)
  {
    forall a, b | 0 <= a < b < |r| ensures r[a].0 != r[b].0 {
      assert r[a].0 == items[a].0 && r[b].0 == items[b].0;
    }
  }

  /** Past a first entry with another key, `x` is a key of the rest exactly when it is a key of the whole. */
  lemma HasKeyTail(items: seq<Entry>, x: nat)
    requires items != [] && items[0].0 != x
    ensures HasKey(items, x) <==> HasKey(items[1..], x)
  {
    if HasKey(items, x) {
      var k :| 0 <= k < |items| && items[k].0 == x;
      assert items[1..][k - 1].0 == x;
    }
    if HasKey(items[1..], x) {
      var k :| 0 <= k < |items[1..]| && items[1..][k].0 == x;
      assert items[k + 1].0 == x;
    }
  }

  /** Keeping the first entry in front of the bumped rest keeps the keys distinct. */
  lemma ConsDistinct(items: seq<Entry>, rest: seq<Entry>, x: nat)
    requires items != [] && DistinctKeys(items) && items[0].0 != x
    requires DistinctKeys(rest) && |rest| >= |items| - 1
    requires forall k :: 0 <= k < |items| - 1 ==> rest[k].0 == items[k + 1].0
    requires |rest| > |items| - 1 ==> rest[|items| - 1].0 == x && |rest| == |items|
    ensures DistinctKeys([items[0]] + rest)
  {
    var r := [items[0]] + rest;
    forall a, b | 0 <= a < b < |r| ensures r[a].0 != r[b].0 {
      if a == 0 {
        assert r[b] == rest[b - 1];
        if b - 1 < |items| - 1 {
          assert rest[b - 1].0 == items[b].0;
        }
      } else {
        assert r[a] == rest[a - 1] && r[b] == rest[b - 1];
      }
    }
  }

  /** `Counter(xs)`: one update per length, from left to right. */
  function Tally(xs: seq<nat>): (items: seq<Entry>)
    ensures DistinctKeys(items)
  {
    if xs == [] then [] else Bump(Tally(xs[..|xs| - 1]), xs[|xs| - 1])
  }

  /**
   * The histogram counts every length correctly, once, in order of first occurrence,
   * and its counts add up to the number of tokens.
   */
  lemma {:induction false} TallyIsCounter(xs: seq<nat>)
    ensures IsCounter(xs, Tally(xs))
  {
    if xs != [] {
      var init, x := xs[..|xs| - 1], xs[|xs| - 1];
      TallyIsCounter(init);
      assert xs == init + [x];
      TallyStep(init, x, Tally(init));
    }
  }

  lemma CountAppend(xs: seq<nat>, x: nat, y: nat)
    ensures Count(xs + [x], y) == Count(xs, y) + (if x == y then 1 else 0)
  {
    assert (xs + [x])[..|xs|] == xs;
  }

  /** One more length keeps the histogram a Counter. */
  lemma TallyStep(init: seq<nat>, x: nat, prev: seq<Entry>)
    requires IsCounter(init, prev)
    ensures IsCounter(init + [x], Bump(prev, x))
  {
    var xs, items := init + [x], Bump(prev, x);
    assert DistinctKeys(items) by {
      forall a, b | 0 <= a < b < |items| ensures items[a].0 != items[b].0 {
        if b == |prev| {
          assert items[a].0 == prev[a].0;
        }
      }
    }
    assert CountsMatch(xs, items) by {
      forall k | 0 <= k < |items| ensures items[k].0 in xs && items[k].1 == Count(xs, items[k].0) {
        CountAppend(init, x, items[k].0);
        if k == |prev| {
          CountPositive(init, x);
        }
      }
    }
    assert CoversAll(xs, items) by {
      forall y | y in xs ensures HasKey(items, y) {
        if HasKey(prev, y) {
          var k :| 0 <= k < |prev| && prev[k].0 == y;
          assert items[k].0 == y;
        } else {
          assert y == x;
          assert items[|prev|].0 == y;
        }
      }
    }
    assert KeysFirstSeen(xs, items) by {
      forall a, b | 0 <= a < b < |items|
        ensures FirstIndex(xs, items[a].0) < FirstIndex(xs, items[b].0)
      {
        FirstIndexAppend(init, x, items[a].0);
        FirstIndexAppend(init, x, items[b].0);
        if b == |prev| {
          assert items[a].0 == prev[a].0 != x;
          assert !HasKey(prev, x);
          assert x !in init;
        }
      }
    }
  }

  /** `max(counter.values(), default=0)` */
  function MaxCount(items: seq<Entry>): (m: nat)
    ensures forall k :: 0 <= k < |items| ==> items[k].1 <= m
    ensures items == [] ==> m == 0
    ensures items != [] ==> exists k :: 0 <= k < |items| && items[k].1 == m
  {
    if items == [] then 0
    else
      var rest := MaxCount(items[1..]);
      if items[0].1 >= rest then items[0].1
      else
        assert items[1..] != [];
        rest
  }

  /** `[length for length, freq in counter.items() if freq == m]` */
  function MostCommon(items: seq<Entry>, m: nat): (r: seq<nat>)
    ensures forall y :: y in r <==> exists k :: 0 <= k < |items| && items[k] == (y, m)
  {
    if items == [] then []
    else
      var rest := MostCommon(items[1..], m);
      if items[0].1 == m then
        assert forall y :: y in rest ==> exists k :: 0 <= k < |items| && items[k] == (y, m) by {
          forall y | y in rest ensures exists k :: 0 <= k < |items| && items[k] == (y, m) {
            var j :| 0 <= j < |items[1..]| && items[1..][j] == (y, m);
            assert items[j + 1] == (y, m);
          }
        }
        [items[0].0] + rest
      else
        rest
  }

  /** Filtering keeps the relative order of the keys it keeps. */
  lemma {:induction false} MostCommonOrder(xs: seq<nat>, items: seq<Entry>, m: nat)
    requires KeysFirstSeen(xs, items)
    ensures forall a, b :: 0 <= a < b < |MostCommon(items, m)| ==>
      FirstIndex(xs, MostCommon(items, m)[a]) < FirstIndex(xs, MostCommon(items, m)[b])
  {
    if items != [] {
      var tail := items[1..];
      KeysFirstSeenTail(xs, items);
      MostCommonOrder(xs, tail, m);
      var rest := MostCommon(tail, m);
      if items[0].1 == m {
        var r := [items[0].0] + rest;
        assert MostCommon(items, m) == r;
        HeadSeenFirst(xs, items, m);
        forall a, b | 0 <= a < b < |r| ensures FirstIndex(xs, r[a]) < FirstIndex(xs, r[b]) {
          assert r[b] == rest[b - 1] && rest[b - 1] in rest;
          if a > 0 {
            assert r[a] == rest[a - 1];
          }
        }
      } else {
        assert MostCommon(items, m) == rest;
      }
    }
  }

  lemma KeysFirstSeenTail(xs: seq<nat>, items: seq<Entry>)
    requires items != [] && KeysFirstSeen(xs, items)
    ensures KeysFirstSeen(xs, items[1..])
  {
    var tail := items[1..];
    forall a, b | 0 <= a < b < |tail| ensures FirstIndex(xs, tail[a].0) < FirstIndex(xs, tail[b].0) {
      assert tail[a] == items[a + 1] && tail[b] == items[b + 1];
    }
  }

  /** The head's key was seen before every key kept from the tail. */
  lemma HeadSeenFirst(xs: seq<nat>, items: seq<Entry>, m: nat)
    requires items != [] && KeysFirstSeen(xs, items)
    ensures forall y :: y in MostCommon(items[1..], m) ==> FirstIndex(xs, items[0].0) < FirstIndex(xs, y)
  {
    forall y | y in MostCommon(items[1..], m) ensures FirstIndex(xs, items[0].0) < FirstIndex(xs, y) {
      var j :| 0 <= j < |items[1..]| && items[1..][j] == (y, m);
      assert items[j + 1] == items[1..][j];
    }
  }

  // ---------------------------------------------------------------------------
  // The distribution, sorted by length
  // ---------------------------------------------------------------------------

  predicate StrictlyAscending(items: seq<Entry>) {
    forall a, b :: 0 <= a < b < |items| ==> items[a].0 < items[b].0
  }

  function InsertByKey(e: Entry, sorted: seq<Entry>): (r: seq<Entry>)
    requires StrictlyAscending(sorted)
    requires forall k :: 0 <= k < |sorted| ==> sorted[k].0 != e.0
    ensures StrictlyAscending(r)
    ensures |r| == |sorted| + 1
    ensures forall f :: f in r <==> f == e || f in sorted
    ensures SumCounts(r) == SumCounts(sorted) + e.1
  {
    if sorted == [] then [e]
    else if e.0 < sorted[0].0 then [e] + sorted
    else
      var rest := InsertByKey(e, sorted[1..]);
      MembersCons(sorted);
      KeysAboveHead(sorted, e, rest);
      [sorted[0]] + rest
  }

  /** An entry is in a non-empty list exactly when it is the head or in the tail. */
  lemma MembersCons(items: seq<Entry>)
    requires items != []
    ensures forall f :: f in items <==> f == items[0] || f in items[1..]
  {
    assert items == [items[0]] + items[1..];
  }

  /** The tail of an ascending list with `e` inserted has only keys above the head. */
  lemma KeysAboveHead(sorted: seq<Entry>, e: Entry, rest: seq<Entry>)
    requires StrictlyAscending(sorted) && sorted != [] && sorted[0].0 < e.0
    requires forall f :: f in rest <==> f == e || f in sorted[1..]
    ensures forall k :: 0 <= k < |rest| ==> sorted[0].0 < rest[k].0
  {
    forall k | 0 <= k < |rest| ensures sorted[0].0 < rest[k].0 {
      assert rest[k] in rest;
      if rest[k] != e {
        var j :| 0 <= j < |sorted[1..]| && sorted[1..][j] == rest[k];
        assert sorted[j + 1] == rest[k];
      }
    }
  }

  /** `sorted(counter.items(), key=lambda item: item[0])`; the keys are distinct, so stability plays no part. */
  function SortByKey(items: seq<Entry>): (r: seq<Entry>)
    requires DistinctKeys(items)
    ensures StrictlyAscending(r)
    ensures |r| == |items|
    ensures forall f :: f in r <==> f in items
    ensures SumCounts(r) == SumCounts(items)
  {
    if items == [] then []
    else
      var tail := items[1..];
      var rest := SortByKey(tail);
      MembersCons(items);
      HeadKeyNotInTail(items, rest);
      InsertByKey(items[0], rest)
  }

  /** With distinct keys, the head's key is the key of nothing that holds the tail's entries. */
  lemma HeadKeyNotInTail(items: seq<Entry>, rest: seq<Entry>)
    requires DistinctKeys(items) && items != []
    requires forall f :: f in rest <==> f in items[1..]
    ensures forall k :: 0 <= k < |rest| ==> rest[k].0 != items[0].0
  {
    forall k | 0 <= k < |rest| ensures rest[k].0 != items[0].0 {
      assert rest[k] in items[1..];
      var j :| 0 <= j < |items[1..]| && items[1..][j] == rest[k];
      assert items[j + 1] == rest[k];
    }
  }

  // ---------------------------------------------------------------------------
  // The result
  // ---------------------------------------------------------------------------

  function Average(xs: seq<nat>): real {
    if |xs| > 0 then Sum(xs) as real / |xs| as real else 0.0
  }

  function Summarize(xs: seq<nat>): Stats {
    var counter := Tally(xs);
    TallyIsCounter(xs);
    var m := MaxCount(counter);
    Stats(|xs|, Average(xs), SortByKey(counter), MostCommon(counter, m), m)
  }

  /**
   * The average times the count is the total length, and with every token non-empty
   * the average is 0 exactly when there are no tokens.
   */
  lemma AverageIsMean(xs: seq<nat>)
    ensures |xs| > 0 ==> Average(xs) * |xs| as real == Sum(xs) as real
    ensures |xs| == 0 ==> Average(xs) == 0.0
    ensures (forall k :: 0 <= k < |xs| ==> xs[k] >= 1) ==> (Average(xs) == 0.0 <==> |xs| == 0)
  {
    if |xs| > 0 {
      var n, total := |xs| as real, Sum(xs) as real;
      assert Average(xs) == total / n;
      assert total / n * n == total;
      if forall k :: 0 <= k < |xs| ==> xs[k] >= 1 {
        SumAtLeastCount(xs);
        assert total >= n > 0.0;
        assert Average(xs) > 0.0;
      }
    }
  }

  /** The word count is the number of tokens, and the average is their mean length. */
  lemma WordCountAndAverage(xs: seq<nat>)
    ensures Summarize(xs).wordCount == |xs|
    ensures Summarize(xs).averageWordLength == Average(xs)
  {
  }

  /** The counts of the distribution add up to the word count. */
  lemma DistributionSumsToWordCount(xs: seq<nat>)
    ensures SumCounts(Summarize(xs).distribution) == Summarize(xs).wordCount
  {
    TallyIsCounter(xs);
  }

  /**
   * The distribution has one entry per distinct length, in strictly ascending order of
   * length, each carrying the number of tokens of that length.
   */
  lemma DistributionIsHistogram(xs: seq<nat>)
    ensures var d := Summarize(xs).distribution;
      && StrictlyAscending(d)
      && (forall k :: 0 <= k < |d| ==> d[k].0 in xs && d[k].1 == Count(xs, d[k].0) && d[k].1 > 0)
      && (forall y :: y in xs ==> HasKey(d, y))
  {
    assert Summarize(xs).distribution == SortByKey(Tally(xs));
    DistributionEntries(xs);
    DistributionCovers(xs);
  }

  /** Each entry of the distribution is an occurring length with its positive count. */
  lemma DistributionEntries(xs: seq<nat>)
    ensures var d := SortByKey(Tally(xs));
      forall k :: 0 <= k < |d| ==> d[k].0 in xs && d[k].1 == Count(xs, d[k].0) && d[k].1 > 0
  {
    var counter := Tally(xs);
    TallyIsCounter(xs);
    var d := SortByKey(counter);
    forall k | 0 <= k < |d| ensures d[k].0 in xs && d[k].1 == Count(xs, d[k].0) && d[k].1 > 0 {
      assert d[k] in counter;
      var j :| 0 <= j < |counter| && counter[j] == d[k];
      CountPositive(xs, d[k].0);
    }
  }

  /** Every occurring length is a key of the distribution. */
  lemma DistributionCovers(xs: seq<nat>)
    ensures forall y :: y in xs ==> HasKey(SortByKey(Tally(xs)), y)
  {
    var counter := Tally(xs);
    TallyIsCounter(xs);
    var d := SortByKey(counter);
    forall y | y in xs ensures HasKey(d, y) {
      var j :| 0 <= j < |counter| && counter[j].0 == y;
      assert counter[j] in d;
      var k :| 0 <= k < |d| && d[k] == counter[j];
    }
  }

  /** `number_of_occurrences` is the highest count of any length, and 0 exactly when there are no tokens. */
  lemma OccurrencesIsMaximum(xs: seq<nat>)
    ensures var m := Summarize(xs).occurrences;
      && (forall y :: Count(xs, y) <= m)
      && (xs != [] ==> exists y :: y in xs && Count(xs, y) == m)
      && (m == 0 <==> xs == [])
  {
    var counter := Tally(xs);
    TallyIsCounter(xs);
    var m := Summarize(xs).occurrences;
    forall y ensures Count(xs, y) <= m {
      CountPositive(xs, y);
      if y in xs {
        var j :| 0 <= j < |counter| && counter[j].0 == y;
      }
    }
    if xs != [] {
      assert xs[0] in xs;
      var j :| 0 <= j < |counter| && counter[j].0 == xs[0];
      var k :| 0 <= k < |counter| && counter[k].1 == m;
      CountPositive(xs, counter[k].0);
    }
  }

  /**
   * `most_frequently_occurring_word_lengths` holds exactly the lengths whose count is the
   * maximum, each once, in the order in which they first occur among the tokens.
   */
  lemma MostFrequentExact(xs: seq<nat>)
    ensures var st := Summarize(xs);
      && (forall y :: y in st.mostFrequent <==> y in xs && Count(xs, y) == st.occurrences)
      && FirstSeenOrder(xs, st.mostFrequent)
      && (forall a, b :: 0 <= a < b < |st.mostFrequent| ==> st.mostFrequent[a] != st.mostFrequent[b])
  {
    var counter := Tally(xs);
    TallyIsCounter(xs);
    var m := MaxCount(counter);
    var mf := MostCommon(counter, m);
    assert Summarize(xs).mostFrequent == mf && Summarize(xs).occurrences == m;
    MostCommonMembers(xs, counter, m);
    MostCommonOrder(xs, counter, m);
    assert forall k :: 0 <= k < |mf| ==> mf[k] in xs by {
      forall k | 0 <= k < |mf| ensures mf[k] in xs {
        assert mf[k] in mf;
      }
    }
  }

  /** Over a Counter, the filter on count `m` keeps exactly the lengths occurring `m` times. */
  lemma MostCommonMembers(xs: seq<nat>, counter: seq<Entry>, m: nat)
    requires IsCounter(xs, counter)
    ensures forall y :: y in MostCommon(counter, m) <==> y in xs && Count(xs, y) == m
  {
    forall y ensures y in MostCommon(counter, m) <==> y in xs && Count(xs, y) == m {
      if y in xs {
        var j :| 0 <= j < |counter| && counter[j].0 == y;
        assert counter[j] == (y, Count(xs, y));
      }
    }
  }
}
