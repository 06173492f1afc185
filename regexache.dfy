/**
 * The pattern-to-matcher cache of regexache: a table from pattern text to
 * an entry holding the compiled matcher, a use count and the time of last
 * use, plus the switch that turns caching on.
 *
 * The regular-expression compiler is foreign code. It is modelled by
 * `Compile`, which yields a fresh `Regexp` for a pattern the compiler
 * accepts, as told by the oracle `valid`, and a failure where
 * `regexp.MustCompile` would panic. Clock readings are parameters.
 */
module Regexache {
  import opened Wrappers
  import opened Slices

  /** A compiled matcher; only its identity and its source text matter here. */
  class Regexp {
    const expr: string

    constructor (expr: string)
      ensures this.expr == expr
    {
      this.expr := expr;
    }
  }

  /** `regexp.MustCompile`: a new matcher, or the panic as `None`. */
  method Compile(expr: string, valid: string -> bool) returns (r: Option<Regexp>)
    ensures r.Some? <==> valid(expr)
    ensures r.Some? ==> fresh(r.value) && r.value.expr == expr
  {
    if valid(expr) {
      var re := new Regexp(expr);
      r := Some(re);
    } else {
      r := None;
    }
  }

  /** A table entry: `centry`. Counts and times are nanosecond integers. */
  datatype Entry = Entry(re: Regexp, count: int, lastUse: int)

  /** The retention rule of `clean`: an entry that is seldom used and old goes. */
  predicate Evictable(e: Entry, minimumUses: int, expiration: int, now: int): (r: bool)
    ensures r ==> now - e.lastUse > expiration
    ensures minimumUses == 0 ==> (r <==> now - e.lastUse > expiration)
    ensures 0 < minimumUses <= e.count ==> !r
  {
    (e.count < minimumUses || minimumUses == 0) && now - e.lastUse > expiration
  }

  /** One line of the usage report: a pattern and its count. */
  datatype Row = Row(key: string, count: int)

  /** The keys of t whose entry is in keys and has count c. */
  ghost function WithCount(t: map<string, Entry>, keys: set<string>, c: int): (r: set<string>) {
    set k | k in keys && k in t && t[k].count == c
  }

  /** How many rows report k. */
  function Occurrences(rows: seq<Row>, k: string): (n: nat)
    decreases |rows|
  {
    if rows == [] then 0
    else Occurrences(rows[..|rows| - 1], k) + (if rows[|rows| - 1].key == k then 1 else 0)
  }

  lemma OccurrencesAppend(rows: seq<Row>, r: Row, k: string)
    ensures Occurrences(rows + [r], k) == Occurrences(rows, k) + (if r.key == k then 1 else 0)
  {
    assert (rows + [r])[..|rows|] == rows;
  }

  /** Adding one key to the keys counted adds one to its own count only. */
  lemma WithCountAdd(t: map<string, Entry>, keys: set<string>, k: string, c: int)
    requires k in t && k !in keys
    ensures |WithCount(t, keys + {k}, c)| == |WithCount(t, keys, c)| + (if t[k].count == c then 1 else 0)
  {
    if t[k].count == c {
      assert WithCount(t, keys + {k}, c) == WithCount(t, keys, c) + {k};
    } else {
      assert WithCount(t, keys + {k}, c) == WithCount(t, keys, c);
    }
  }

  class Cache {
    /** `cache`: pattern text to entry. */
    var table: map<string, Entry>
    /** `caching`. */
    var caching: bool
    /** The compiler behind `regexp.MustCompile`: which texts it accepts. */
    const valid: string -> bool

    /**
     * Every stored matcher was compiled from its own key, and every key is
     * a text the compiler accepts (a rejected text panics before it could
     * be stored).
     */
    ghost predicate Valid()
      reads this
    {
      forall k :: k in table ==> table[k].re.expr == k && valid(k)
    }

    /**
     * Every stored count is 1: a hit never writes back to the table, so
     * the count set on insertion is the only one there ever is.
     */
    ghost predicate SingleUse()
      reads this
    {
      forall k :: k in table ==> table[k].count == 1
    }

    constructor (caching: bool, valid: string -> bool)
      ensures table == map[] && this.caching == caching && this.valid == valid
      ensures Valid() && SingleUse()
    {
      table := map[];
      this.caching := caching;
      this.valid := valid;
    }

    /**
     * `lookup`: the stored matcher for str, if any. The count and the time
     * of last use are updated on a copy of the entry, so the table itself
     * is unchanged (the method may modify nothing).
     */
    method Lookup(str: string, now: int) returns (r: Option<Regexp>)
      ensures str in table ==> r == Some(table[str].re)
      ensures str !in table ==> r.None?
    {
      if str in table {
        var v := table[str];
        v := v.(count := v.count + 1, lastUse := now);
        r := Some(v.re);
      } else {
        r := None;
      }
    }

    /**
     * `MustCompile`: with caching off a fresh matcher and no change; with
     * caching on the stored matcher on a hit, otherwise a fresh matcher
     * stored with count 1 and time now. A pattern the compiler rejects
     * yields `None` and stores nothing.
     */
    method MustCompile(str: string, now: int) returns (r: Option<Regexp>)
      requires Valid()
      modifies this
      ensures Valid() && caching == old(caching)
      ensures r.Some? <==> valid(str)
      ensures r.Some? ==> r.value.expr == str
      ensures !caching ==> table == old(table) && (r.Some? ==> fresh(r.value))
      ensures caching && str in old(table) ==> table == old(table) && r == Some(old(table)[str].re)
      ensures caching && str !in old(table) && valid(str) ==>
        r.Some? && fresh(r.value) && table == old(table)[str := Entry(r.value, 1, now)]
      ensures caching && str !in old(table) && !valid(str) ==> r.None? && table == old(table)
      ensures old(SingleUse()) ==> SingleUse()
    {
      if !caching {
        r := Compile(str, this.valid);
        return;
      }
      var hit := Lookup(str, now);
      if hit.Some? {
        return hit;
      }
      var re := Compile(str, this.valid);
      if re.None? {
        return None;
      }
      table := table[str := Entry(re.value, 1, now)];
      r := Some(table[str].re);
    }

    /**
     * `clean`: one pass over the table in some order. The pass reads the
     * clock once before it starts (start); for the j-th entry it examines
     * it reads the clock for the age test (ageTime(j)) and again for the
     * deadline test (checkTime(j)), and stops after an entry whose deadline
     * reading lies past start + cleanTime. The entries examined, in order,
     * are returned as examined. The loop is `Sweep`, run on the map; its
     * result replaces the table, which nobody else reads while `clean`
     * holds the lock.
     */
    method Clean(minimumUses: int, expiration: int, cleanTime: int,
                 start: int, ageTime: nat -> int, checkTime: nat -> int)
      returns (ghost examined: seq<string>)
      modifies this
      ensures caching == old(caching)
      ensures Cleaned(old(table), table, examined, minimumUses, expiration, ageTime, checkTime, start + cleanTime)
      ensures old(Valid()) ==> Valid()
      ensures old(SingleUse()) ==> SingleUse()
    {
      ghost var examined';
      table, examined' := Sweep(table, minimumUses, expiration, start + cleanTime, ageTime, checkTime);
      examined := examined';
    }

    /**
     * `outputCache` without the file: the header line and the rows. Every
     * count of the table, duplicates kept, in non-increasing order; for each
     * that is at least outputMin, one row per key holding that count.
     */
    method OutputCache(outputMin: int) returns (header: string, rows: seq<Row>)
      ensures header == "regex\tcount"
      ensures forall j :: 0 <= j < |rows| ==>
        rows[j].key in table && table[rows[j].key].count == rows[j].count && rows[j].count >= outputMin
      ensures forall i, j :: 0 <= i < j < |rows| ==> rows[i].count >= rows[j].count
      ensures forall k :: k in table && table[k].count >= outputMin ==>
        Occurrences(rows, k) == |WithCount(table, table.Keys, table[k].count)|
    {
      var uses := CollectCounts(table);
      SortDescending(uses);
      SameCounts(table, uses, Reverse(Sort(uses)));
      uses := Reverse(Sort(uses));
      header := "regex\tcount";
      rows := Report(table, uses, outputMin);
      TallyComplete(table, rows, uses, outputMin);
    }
  }

  /** Every row reports a key of t with its count, at least outputMin. */
  ghost predicate RowsSound(t: map<string, Entry>, rows: seq<Row>, outputMin: int) {
    forall j :: 0 <= j < |rows| ==>
      rows[j].key in t && t[rows[j].key].count == rows[j].count && rows[j].count >= outputMin
  }

  /** Each key of t is reported once for every count in used equal to its own, from outputMin on. */
  ghost predicate Tally(t: map<string, Entry>, rows: seq<Row>, used: seq<int>, outputMin: int) {
    forall k :: k in t ==>
      Occurrences(rows, k) == if t[k].count >= outputMin then multiset(used)[t[k].count] else 0
  }

  /** Every count of t, as often as it occurs. */
  ghost predicate AllCounts(t: map<string, Entry>, used: seq<int>) {
    forall c :: multiset(used)[c] == |WithCount(t, t.Keys, c)|
  }

  lemma TallyComplete(t: map<string, Entry>, rows: seq<Row>, used: seq<int>, outputMin: int)
    requires Tally(t, rows, used, outputMin) && AllCounts(t, used)
    ensures forall k :: k in t && t[k].count >= outputMin ==>
      Occurrences(rows, k) == |WithCount(t, t.Keys, t[k].count)|
  {
  }

  lemma SameCounts(t: map<string, Entry>, used: seq<int>, used': seq<int>)
    requires AllCounts(t, used) && multiset(used') == multiset(used)
    ensures AllCounts(t, used')
  {
  }

  /** The first loop of `outputCache`: the count of every entry of t, in some order. */
  method CollectCounts(t: map<string, Entry>) returns (uses: seq<int>)
    ensures AllCounts(t, uses)
  {
    uses := [];
    var pending := t.Keys;
    ghost var seen: set<string> := {};
    while pending != {}
      invariant pending + seen == t.Keys && pending !! seen
      invariant Counted(t, seen, uses)
      decreases |pending|
    {
      var k :| k in pending;
      CountStep(t, seen, uses, k);
      uses := uses + [t[k].count];
      seen := seen + {k};
      pending := pending - {k};
    }
  }

  /** uses holds the counts of the keys seen, as often as each occurs. */
  ghost predicate Counted(t: map<string, Entry>, seen: set<string>, uses: seq<int>) {
    forall c :: multiset(uses)[c] == |WithCount(t, seen, c)|
  }

  lemma CountStep(t: map<string, Entry>, seen: set<string>, uses: seq<int>, k: string)
    requires Counted(t, seen, uses) && k in t && k !in seen
    ensures Counted(t, seen + {k}, uses + [t[k].count])
  {
    forall c
      ensures multiset(uses + [t[k].count])[c] == |WithCount(t, seen + {k}, c)|
    {
      WithCountAdd(t, seen, k, c);
    }
  }

  /** The nested loops of `outputCache`, over the counts in non-increasing order. */
  method Report(t: map<string, Entry>, uses: seq<int>, outputMin: int) returns (rows: seq<Row>)
    requires Descending(uses)
    ensures RowsSound(t, rows, outputMin) && RowDescending(rows)
    ensures Tally(t, rows, uses, outputMin)
  {
    rows := [];
    var i := 0;
    while i < |uses|
      invariant 0 <= i <= |uses|
      invariant RowsSound(t, rows, outputMin)
      invariant RowDescending(rows)
      invariant i < |uses| ==> RowsAbove(rows, uses[i])
      invariant Tally(t, rows, uses[..i], outputMin)
    {
      var v := uses[i];
      ghost var before := rows;
      if v >= outputMin {
        rows := AppendSharing(t, rows, v, outputMin);
      }
      TallyStep(t, before, rows, uses, i, outputMin);
      if i + 1 < |uses| {
        AboveLower(rows, v, uses[i + 1]);
      }
      i := i + 1;
    }
    assert uses[..i] == uses;
  }

  /** One more count of used: its keys were reported once more if it is at least outputMin. */
  lemma TallyStep(t: map<string, Entry>, rows: seq<Row>, rows': seq<Row>, used: seq<int>, i: nat, outputMin: int)
    requires i < |used| && Tally(t, rows, used[..i], outputMin)
    requires used[i] < outputMin ==> rows' == rows
    requires used[i] >= outputMin ==> forall k :: k in t ==>
      Occurrences(rows', k) == Occurrences(rows, k) + (if t[k].count == used[i] then 1 else 0)
    ensures Tally(t, rows', used[..i + 1], outputMin)
  {
    assert used[..i + 1] == used[..i] + [used[i]];
  }

  /** The inner loop of `outputCache`: one row per key of t whose count is v. */
  method AppendSharing(t: map<string, Entry>, rows: seq<Row>, v: int, outputMin: int) returns (rows': seq<Row>)
    requires v >= outputMin && RowsSound(t, rows, outputMin) && RowDescending(rows) && RowsAbove(rows, v)
    ensures RowsSound(t, rows', outputMin) && RowDescending(rows') && RowsAbove(rows', v)
    ensures forall k :: k in t ==>
      Occurrences(rows', k) == Occurrences(rows, k) + (if t[k].count == v then 1 else 0)
  {
    rows' := rows;
    var keys := t.Keys;
    while keys != {}
      invariant keys <= t.Keys
      invariant RowsSound(t, rows', outputMin) && RowDescending(rows') && RowsAbove(rows', v)
      invariant forall k :: k in t ==>
        Occurrences(rows', k) == Occurrences(rows, k) + (if k !in keys && t[k].count == v then 1 else 0)
      decreases |keys|
    {
      var k :| k in keys;
      if t[k].count == v {
        forall k' {
          OccurrencesAppend(rows', Row(k, v), k');
        }
        AppendBelow(rows', Row(k, v));
        rows' := rows' + [Row(k, v)];
      }
      keys := keys - {k};
    }
  }

  /**
   * regexache_test.go:10-17: with caching on, asking twice for the same
   * pattern gives the same matcher.
   */
  method SameTwice(c: Cache, str: string, now: int, later: int)
    returns (first: Option<Regexp>, second: Option<Regexp>)
    requires c.Valid() && c.caching && c.valid(str)
    modifies c
    ensures first.Some? && first == second
  {
    first := c.MustCompile(str, now);
    second := c.MustCompile(str, later);
  }

  /**
   * regexache_test.go:46-57: with caching off every call compiles a new
   * matcher.
   */
  method Uncached(c: Cache, str: string, now: int, later: int)
    returns (first: Option<Regexp>, second: Option<Regexp>)
    requires c.Valid() && !c.caching && c.valid(str)
    modifies c
    ensures first.Some? && second.Some? && first.value != second.value
  {
    first := c.MustCompile(str, now);
    second := c.MustCompile(str, later);
  }

  /** regexache_test.go:59-68: different patterns give different matchers. */
  method Distinct(c: Cache, a: string, b: string, now: int, later: int)
    returns (first: Option<Regexp>, second: Option<Regexp>)
    requires c.Valid() && a != b && c.valid(a) && c.valid(b)
    modifies c
    ensures first.Some? && second.Some? && first.value != second.value
  {
    first := c.MustCompile(a, now);
    second := c.MustCompile(b, later);
  }

  /**
   * regexache_test.go:78-86: a pattern the compiler rejects fails and
   * leaves no entry behind.
   */
  method Rejected(c: Cache, str: string, now: int) returns (r: Option<Regexp>)
    requires c.Valid() && !c.valid(str)
    modifies c
    ensures r.None? && str !in c.table
  {
    r := c.MustCompile(str, now);
  }

  /**
   * Since no count ever rises above 1, every row of a report has count 1,
   * and a report whose threshold is above 1 (the default is 10) has none.
   */
  method ReportOfOnes(c: Cache, outputMin: int) returns (header: string, rows: seq<Row>)
    requires c.SingleUse()
    ensures header == "regex\tcount"
    ensures forall j :: 0 <= j < |rows| ==> rows[j].count == 1
    ensures rows != [] ==> outputMin <= 1
  {
    header, rows := c.OutputCache(outputMin);
    assert rows != [] ==> rows[0].count >= outputMin;
  }

  /** Row counts never increase down the report. */
  ghost predicate RowDescending(rows: seq<Row>) {
    forall a, b :: 0 <= a < b < |rows| ==> rows[a].count >= rows[b].count
  }

  /** No row count is below v. */
  ghost predicate RowsAbove(rows: seq<Row>, v: int) {
    forall j :: 0 <= j < |rows| ==> rows[j].count >= v
  }

  lemma AboveLower(rows: seq<Row>, v: int, w: int)
    requires RowsAbove(rows, v) && w <= v
    ensures RowsAbove(rows, w)
  {
  }

  lemma AppendBelow(rows: seq<Row>, r: Row)
    requires RowDescending(rows) && RowsAbove(rows, r.count)
    ensures RowDescending(rows + [r]) && RowsAbove(rows + [r], r.count)
  {
  }

  /** The loop of `clean`, on the table start it is given; t is what the pass leaves. */
  method Sweep(start: map<string, Entry>, minimumUses: int, expiration: int, endCleanTime: int,
               ageTime: nat -> int, checkTime: nat -> int)
    returns (t: map<string, Entry>, ghost examined: seq<string>)
    ensures forall k :: k in t ==> k in start && t[k] == start[k]
    ensures Cleaned(start, t, examined, minimumUses, expiration, ageTime, checkTime, endCleanTime)
  {
    t := start;
    var pending := t.Keys;
    examined := [];
    var i := 0;
    while pending != {}
      invariant i == |examined|
      invariant Swept(start, t, pending, examined, minimumUses, expiration, ageTime)
      invariant OnTime(checkTime, i, endCleanTime)
      decreases |pending|
    {
      var k :| k in pending;
      t := Visit(start, t, pending, examined, i, k, minimumUses, expiration, ageTime);
      pending := pending - {k};
      examined := examined + [k];
      if checkTime(i) > endCleanTime {
        i := i + 1;
        break;
      }
      OnTimeStep(checkTime, i, endCleanTime);
      i := i + 1;
    }
    SweptOutcome(start, t, pending, examined, minimumUses, expiration, ageTime, checkTime, endCleanTime);
  }

  /**
   * One step of the loop of `clean`: the i-th key examined, k, is deleted
   * when it is evictable at the i-th age reading.
   */
  method Visit(start: map<string, Entry>, t: map<string, Entry>, pending: set<string>,
               ghost examined: seq<string>, i: nat, k: string, minimumUses: int, expiration: int,
               ageTime: nat -> int)
    returns (t': map<string, Entry>)
    requires Swept(start, t, pending, examined, minimumUses, expiration, ageTime)
    requires i == |examined| && k in pending
    ensures t' == if Evictable(t[k], minimumUses, expiration, ageTime(i)) then t - {k} else t
    ensures Swept(start, t', pending - {k}, examined + [k], minimumUses, expiration, ageTime)
  {
    t' := t;
    if Evictable(t[k], minimumUses, expiration, ageTime(i)) {
      t' := t - {k};
    }
    SweepStep(start, t, t', pending, examined, k, minimumUses, expiration, ageTime);
  }

  /**
   * The state of a `clean` pass: examined lists the keys visited so far,
   * pending the keys of start still to visit, and t is start without the
   * visited entries that were evictable when examined.
   */
  ghost predicate Swept(start: map<string, Entry>, t: map<string, Entry>, pending: set<string>,
                        examined: seq<string>, minimumUses: int, expiration: int, ageTime: nat -> int) {
    Visits(start, pending, examined) && Kept(start, t, pending) &&
    forall j :: 0 <= j < |examined| ==>
      (examined[j] !in t <==> Evictable(start[examined[j]], minimumUses, expiration, ageTime(j)))
  }

  /** examined and pending split the keys of start, examined without repeats. */
  ghost predicate Visits(start: map<string, Entry>, pending: set<string>, examined: seq<string>) {
    pending <= start.Keys &&
    (forall k :: k in start ==> (k in pending <==> k !in examined)) &&
    (forall i, j :: 0 <= i < j < |examined| ==> examined[i] != examined[j]) &&
    (forall j :: 0 <= j < |examined| ==> examined[j] in start)
  }

  /** t holds entries of start only, unchanged, and every pending one. */
  ghost predicate Kept(start: map<string, Entry>, t: map<string, Entry>, pending: set<string>) {
    (forall k :: k in t ==> k in start && t[k] == start[k]) &&
    (forall k :: k in pending ==> k in t)
  }

  /**
   * What a `clean` pass leaves, t, given the table start it began with:
   * the keys examined, in order and without repeats, are keys of start and
   * at least one when start has any; t keeps the entries of start
   * unchanged, except that an examined key is gone exactly when its entry
   * was evictable at the age reading taken for it; no deadline reading but
   * the last lies past the deadline, and a pass that left keys unexamined
   * ended on a deadline reading past it.
   */
  ghost predicate Cleaned(start: map<string, Entry>, t: map<string, Entry>, examined: seq<string>,
                          minimumUses: int, expiration: int,
                          ageTime: nat -> int, checkTime: nat -> int, endCleanTime: int) {
    (forall i, j :: 0 <= i < j < |examined| ==> examined[i] != examined[j]) &&
    (forall j :: 0 <= j < |examined| ==> examined[j] in start) &&
    (start != map[] ==> |examined| >= 1) &&
    (forall k :: k in t ==> k in start && t[k] == start[k]) &&
    (forall k :: k in start && k !in examined ==> k in t) &&
    (forall j :: 0 <= j < |examined| ==>
      (examined[j] !in t <==> Evictable(start[examined[j]], minimumUses, expiration, ageTime(j)))) &&
    (forall j :: 0 <= j < |examined| - 1 ==> checkTime(j) <= endCleanTime) &&
    ((exists k :: k in start && k !in examined) ==>
      |examined| >= 1 && checkTime(|examined| - 1) > endCleanTime)
  }

  /** The entries a pass that reads the clock as now everywhere keeps. */
  function Retained(start: map<string, Entry>, minimumUses: int, expiration: int, now: int): (r: map<string, Entry>)
    ensures r.Keys <= start.Keys
  {
    map k | k in start && !Evictable(start[k], minimumUses, expiration, now) :: start[k]
  }

  /**
   * A pass that is never cut short, with one clock reading now for every
   * age test, keeps exactly the entries that are not evictable at now.
   */
  lemma FullPass(start: map<string, Entry>, t: map<string, Entry>, examined: seq<string>,
                 minimumUses: int, expiration: int, ageTime: nat -> int, checkTime: nat -> int,
                 endCleanTime: int, now: int)
    requires Cleaned(start, t, examined, minimumUses, expiration, ageTime, checkTime, endCleanTime)
    requires forall j: nat :: ageTime(j) == now && checkTime(j) <= endCleanTime
    ensures t == Retained(start, minimumUses, expiration, now)
  {
    var r := Retained(start, minimumUses, expiration, now);
    forall k | k in start
      ensures k in t <==> k in r
    {
      assert k in examined;
      var j :| 0 <= j < |examined| && examined[j] == k;
      assert ageTime(j) == now;
    }
    assert t.Keys == r.Keys;
  }

  /** None of the first n deadline readings lies past the deadline. */
  ghost predicate OnTime(checkTime: nat -> int, n: nat, endCleanTime: int) {
    forall j :: 0 <= j < n ==> checkTime(j) <= endCleanTime
  }

  lemma OnTimeStep(checkTime: nat -> int, n: nat, endCleanTime: int)
    requires OnTime(checkTime, n, endCleanTime) && checkTime(n) <= endCleanTime
    ensures OnTime(checkTime, n + 1, endCleanTime)
  {
  }

  /** Visiting pending key k, deleting it when it is evictable. */
  lemma SweepStep(start: map<string, Entry>, t: map<string, Entry>, t': map<string, Entry>,
                  pending: set<string>, examined: seq<string>, k: string,
                  minimumUses: int, expiration: int, ageTime: nat -> int)
    requires Swept(start, t, pending, examined, minimumUses, expiration, ageTime) && k in pending
    requires t' == if Evictable(t[k], minimumUses, expiration, ageTime(|examined|)) then t - {k} else t
    ensures Swept(start, t', pending - {k}, examined + [k], minimumUses, expiration, ageTime)
  {
    VisitsStep(start, pending, examined, k);
    assert Kept(start, t', pending - {k});
    var e' := examined + [k];
    forall j | 0 <= j < |e'|
      ensures e'[j] !in t' <==> Evictable(start[e'[j]], minimumUses, expiration, ageTime(j))
    {
      if j < |examined| {
        assert e'[j] == examined[j] && examined[j] != k;
      }
    }
  }

  lemma VisitsStep(start: map<string, Entry>, pending: set<string>, examined: seq<string>, k: string)
    requires Visits(start, pending, examined) && k in pending
    ensures Visits(start, pending - {k}, examined + [k])
  {
  }

  /** What the state of a pass says about the result. */
  lemma SweptOutcome(start: map<string, Entry>, t: map<string, Entry>, pending: set<string>,
                     examined: seq<string>, minimumUses: int, expiration: int,
                     ageTime: nat -> int, checkTime: nat -> int, endCleanTime: int)
    requires Swept(start, t, pending, examined, minimumUses, expiration, ageTime)
    requires |examined| >= 1 ==> OnTime(checkTime, |examined| - 1, endCleanTime)
    requires pending != {} ==> |examined| >= 1 && checkTime(|examined| - 1) > endCleanTime
    ensures Cleaned(start, t, examined, minimumUses, expiration, ageTime, checkTime, endCleanTime)
  {
    if pending == {} && start != map[] {
      var k :| k in start;
      assert k in examined;
    }
  }
}
