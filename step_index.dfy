/** The step catalogue's values and the list operations the step handler
    applies to them: first-wins de-duplication by id (`populate`,
    gserver/src/steps.handler.ts:778-789), the per-type and per-prefix
    buckets (`buildIndices`, gserver/src/steps.handler.ts:149-165), the usage
    tally (`incrementElementCount`, gserver/src/steps.handler.ts:193-203), the
    first matching step (`getStepByText`, gserver/src/steps.handler.ts:796-804)
    and the ranking of completion candidates (gserver/src/steps.handler.ts:942-951). */
module StepIndex {
  import opened Wrappers
  import opened Strings
  import opened Types

  /** `Step` (gserver/src/steps.handler.ts:36-46). The two regular expressions
      are kept as their source texts. */
  datatype Step = Step(
    id: string,
    regText: string,
    partialRegText: string,
    text: string,
    desc: string,
    def: Location,
    count: nat,
    gherkin: GherkinType,
    documentation: string)

  // ------------------------------------------------------------------------
  // De-duplication

  /** The ids of a list of steps. */
  function Ids(a: seq<Step>): (r: set<string>)
    ensures forall k :: 0 <= k < |a| ==> a[k].id in r
    ensures forall id :: id in r ==> exists k :: 0 <= k < |a| && a[k].id == id
  {
    if a == [] then {} else Ids(a[..|a| - 1]) + {a[|a| - 1].id}
  }

  /** The `reduce` of `populate` over one list: a step is kept when its id was
      neither seen before (`seen`) nor kept already. */
  function Dedup(a: seq<Step>, seen: set<string>): seq<Step>
  {
    if a == [] then []
    else
      var init := a[..|a| - 1];
      var x := a[|a| - 1];
      if x.id in seen + Ids(init) then Dedup(init, seen) else Dedup(init, seen) + [x]
  }

  lemma {:induction false} IdsAppend(a: seq<Step>, b: seq<Step>)
    ensures Ids(a + b) == Ids(a) + Ids(b)
    decreases |b|
  {
    if b == [] {
      assert a + b == a;
    } else {
      var b0 := b[..|b| - 1];
      assert (a + b)[..|a + b| - 1] == a + b0;
      assert (a + b)[|a + b| - 1] == b[|b| - 1];
      IdsAppend(a, b0);
    }
  }

  /** De-duplicating a concatenation is de-duplicating the first part, then
      the second part with the first part's ids seen: file after file. */
  lemma {:induction false} DedupAppend(a: seq<Step>, b: seq<Step>, seen: set<string>)
    ensures Dedup(a + b, seen) == Dedup(a, seen) + Dedup(b, seen + Ids(a))
    decreases |b|
  {
    if b == [] {
      assert a + b == a;
    } else {
      var b0, x := b[..|b| - 1], b[|b| - 1];
      assert b == b0 + [x];
      assert a + b == (a + b0) + [x];
      DedupAppend(a, b0, seen);
      IdsAppend(a, b0);
      assert seen + Ids(a + b0) == (seen + Ids(a)) + Ids(b0);
      DedupSnoc(a + b0, x, seen);
      DedupSnoc(b0, x, seen + Ids(a));
      var p, q := Dedup(a, seen), Dedup(b0, seen + Ids(a));
      var keep: seq<Step> := if x.id in seen + Ids(a + b0) then [] else [x];
      ConcatAssoc(p, q, keep);
    }
  }

  lemma ConcatAssoc<T>(p: seq<T>, q: seq<T>, r: seq<T>)
    ensures (p + q) + r == p + (q + r)
  {
  }

  /** One step of `Dedup`: a step appended is kept when its id is new. */
  lemma DedupSnoc(init: seq<Step>, x: Step, seen: set<string>)
    ensures Dedup(init + [x], seen) == Dedup(init, seen) + (if x.id in seen + Ids(init) then [] else [x])
  {
    assert (init + [x])[..|init|] == init;
  }

  /** The same, starting from nothing seen. */
  lemma DedupAppendFresh(a: seq<Step>, b: seq<Step>)
    ensures Dedup(a + b, {}) == Dedup(a, {}) + Dedup(b, Ids(a))
  {
    DedupAppend(a, b, {});
    assert {} + Ids(a) == Ids(a);
  }

  /** The kept steps have pairwise different ids, none of them seen before,
      and each is a step of the input. */
  lemma {:induction false} DedupDistinct(a: seq<Step>, seen: set<string>)
    ensures forall p, q :: 0 <= p < q < |Dedup(a, seen)| ==> Dedup(a, seen)[p].id != Dedup(a, seen)[q].id
    ensures forall x :: x in Dedup(a, seen) ==> x in a && x.id !in seen
    ensures Ids(Dedup(a, seen)) <= Ids(a)
  {
    if a != [] {
      var init := a[..|a| - 1];
      DedupDistinct(init, seen);
      var d := Dedup(init, seen);
      var x := a[|a| - 1];
      if x.id !in seen + Ids(init) {
        forall p | 0 <= p < |d| ensures d[p].id != x.id {
          assert d[p] in init;
        }
        IdsAppend(d, [x]);
      }
    }
  }

  /** The first step with an id not seen before is kept. */
  lemma {:induction false} DedupKeepsFirst(a: seq<Step>, seen: set<string>, j: nat)
    requires j < |a| && a[j].id !in seen
    requires forall i :: 0 <= i < j ==> a[i].id != a[j].id
    ensures a[j] in Dedup(a, seen)
    decreases |a|
  {
    var init := a[..|a| - 1];
    if j < |a| - 1 {
      DedupKeepsFirst(init, seen, j);
    } else {
      assert a[j].id !in Ids(init);
    }
  }

  /** Every id of the input that was not seen before is kept. */
  lemma {:induction false} DedupIds(a: seq<Step>, seen: set<string>)
    ensures Ids(Dedup(a, seen)) == Ids(a) - seen
  {
    if a != [] {
      var init := a[..|a| - 1];
      var x := a[|a| - 1];
      DedupIds(init, seen);
      assert Ids(a) == Ids(init) + {x.id};
      var d := Dedup(init, seen);
      if x.id in seen + Ids(init) {
        assert Dedup(a, seen) == d;
      } else {
        assert Dedup(a, seen) == d + [x];
        assert (d + [x])[..|d + [x]| - 1] == d;
        assert Ids(d + [x]) == Ids(d) + {x.id};
      }
    }
  }

  // ------------------------------------------------------------------------
  // Buckets

  /** The ascending indices below `n` whose key is `key`. */
  function IndicesOf<K(==)>(keys: seq<K>, key: K, n: nat): (r: seq<nat>)
    requires n <= |keys|
    ensures forall p :: 0 <= p < |r| ==> r[p] < n
  {
    if n == 0 then []
    else IndicesOf(keys, key, n - 1) + (if keys[n - 1] == key then [n - 1] else [])
  }

  /** The buckets of the first `n` positions: each key with the positions
      pushed for it, in order. */
  function BucketFrom<K(==)>(keys: seq<K>, n: nat): (r: map<K, seq<nat>>)
    requires n <= |keys|
    ensures forall key, p :: key in r && 0 <= p < |r[key]| ==> r[key][p] < n
  {
    if n == 0 then map[]
    else
      var m := BucketFrom(keys, n - 1);
      var key := keys[n - 1];
      m[key := (if key in m then m[key] else []) + [n - 1]]
  }

  /** One `push` of `buildIndices`. */
  lemma BucketFromNext<K>(keys: seq<K>, i: nat)
    requires i < |keys|
    ensures BucketFrom(keys, i + 1) ==
      BucketFrom(keys, i)[keys[i] := (if keys[i] in BucketFrom(keys, i) then BucketFrom(keys, i)[keys[i]] else []) + [i]]
  {
  }

  /** One `push` of `buildIndices`, on the buckets built so far. */
  lemma PushNext<K>(keys: seq<K>, i: nat, m: map<K, seq<nat>>, key: K)
    requires i < |keys| && m == BucketFrom(keys, i) && key == keys[i]
    ensures BucketFrom(keys, i + 1) == m[key := (if key in m then m[key] else []) + [i]]
  {
    BucketFromNext(keys, i);
  }

  function BucketBy<K(==)>(keys: seq<K>): (r: map<K, seq<nat>>)
    ensures forall key, p :: key in r && 0 <= p < |r[key]| ==> r[key][p] < |keys|
  {
    BucketFrom(keys, |keys|)
  }

  /** A bucket exists exactly for the keys that occur, and holds exactly the
      positions of that key, in order. */
  lemma {:induction false} BucketExact<K>(keys: seq<K>, n: nat, key: K)
    requires n <= |keys|
    ensures key in BucketFrom(keys, n) <==> IndicesOf(keys, key, n) != []
    ensures key in BucketFrom(keys, n) ==> BucketFrom(keys, n)[key] == IndicesOf(keys, key, n)
  {
    if n > 0 {
      BucketExact(keys, n - 1, key);
    }
  }

  /** The steps at some positions. */
  function StepsAt(a: seq<Step>, idx: seq<nat>): (r: seq<Step>)
    requires forall p :: 0 <= p < |idx| ==> idx[p] < |a|
    ensures |r| == |idx|
  {
    if idx == [] then [] else [a[idx[0]]] + StepsAt(a, idx[1..])
  }

  function GherkinKeys(a: seq<Step>): (r: seq<GherkinType>)
    ensures |r| == |a| && forall k :: 0 <= k < |a| ==> r[k] == a[k].gherkin
  {
    if a == [] then [] else GherkinKeys(a[..|a| - 1]) + [a[|a| - 1].gherkin]
  }

  /** `step.text.substring(0, 3).toLowerCase()`. */
  function PrefixKey(host: Host, text: string): string {
    host.lower(Prefix(text, 3))
  }

  function PrefixKeys(host: Host, a: seq<Step>): (r: seq<string>)
    ensures |r| == |a| && forall k :: 0 <= k < |a| ==> r[k] == PrefixKey(host, a[k].text)
  {
    if a == [] then [] else PrefixKeys(host, a[..|a| - 1]) + [PrefixKey(host, a[|a| - 1].text)]
  }

  /** The steps of one Gherkin type, in catalogue order. */
  function OfType(a: seq<Step>, g: GherkinType): (r: seq<Step>)
    ensures forall x :: x in r ==> x in a && x.gherkin == g
  {
    if a == [] then [] else OfType(a[..|a| - 1], g) + (if a[|a| - 1].gherkin == g then [a[|a| - 1]] else [])
  }

  /** The steps whose text has one lower-cased three-character prefix. */
  function OfPrefix(host: Host, a: seq<Step>, key: string): (r: seq<Step>)
    ensures forall x :: x in r ==> x in a && PrefixKey(host, x.text) == key
  {
    if a == [] then []
    else OfPrefix(host, a[..|a| - 1], key) + (if PrefixKey(host, a[|a| - 1].text) == key then [a[|a| - 1]] else [])
  }

  lemma {:induction false} TypeIndicesSelect(a: seq<Step>, g: GherkinType, n: nat)
    requires n <= |a|
    ensures StepsAt(a, IndicesOf(GherkinKeys(a), g, n)) == OfType(a[..n], g)
  {
    if n > 0 {
      var keys := GherkinKeys(a);
      TypeIndicesSelect(a, g, n - 1);
      var i0 := IndicesOf(keys, g, n - 1);
      var hit := a[n - 1].gherkin == g;
      assert keys[n - 1] == a[n - 1].gherkin;
      var tail: seq<nat> := if hit then [n - 1] else [];
      assert IndicesOf(keys, g, n) == i0 + tail;
      StepsAtAppend(a, i0, tail);
      var last: seq<Step> := if hit then [a[n - 1]] else [];
      if hit {
        StepsAtOne(a, n - 1);
      }
      assert StepsAt(a, tail) == last;
      OfTypeStep(a, g, n);
      assert OfType(a[..n], g) == OfType(a[..n - 1], g) + last;
    }
  }

  lemma OfTypeStep(a: seq<Step>, g: GherkinType, n: nat)
    requires 0 < n <= |a|
    ensures OfType(a[..n], g) == OfType(a[..n - 1], g) + (if a[n - 1].gherkin == g then [a[n - 1]] else [])
  {
    assert a[..n][..n - 1] == a[..n - 1];
  }

  lemma {:induction false} PrefixIndicesSelect(host: Host, a: seq<Step>, key: string, n: nat)
    requires n <= |a|
    ensures StepsAt(a, IndicesOf(PrefixKeys(host, a), key, n)) == OfPrefix(host, a[..n], key)
  {
    if n > 0 {
      var keys := PrefixKeys(host, a);
      PrefixIndicesSelect(host, a, key, n - 1);
      var i0 := IndicesOf(keys, key, n - 1);
      var hit := PrefixKey(host, a[n - 1].text) == key;
      assert keys[n - 1] == PrefixKey(host, a[n - 1].text);
      var tail: seq<nat> := if hit then [n - 1] else [];
      assert IndicesOf(keys, key, n) == i0 + tail;
      StepsAtAppend(a, i0, tail);
      var last: seq<Step> := if hit then [a[n - 1]] else [];
      if hit {
        StepsAtOne(a, n - 1);
      }
      assert StepsAt(a, tail) == last;
      OfPrefixStep(host, a, key, n);
      assert OfPrefix(host, a[..n], key) == OfPrefix(host, a[..n - 1], key) + last;
    }
  }

  lemma OfPrefixStep(host: Host, a: seq<Step>, key: string, n: nat)
    requires 0 < n <= |a|
    ensures OfPrefix(host, a[..n], key) ==
      OfPrefix(host, a[..n - 1], key) + (if PrefixKey(host, a[n - 1].text) == key then [a[n - 1]] else [])
  {
    assert a[..n][..n - 1] == a[..n - 1];
  }

  lemma StepsAtOne(a: seq<Step>, p: nat)
    requires p < |a|
    ensures StepsAt(a, [p]) == [a[p]]
  {
    assert [p][1..] == [];
  }

  lemma {:induction false} StepsAtAppend(a: seq<Step>, i: seq<nat>, j: seq<nat>)
    requires forall p :: 0 <= p < |i| ==> i[p] < |a|
    requires forall p :: 0 <= p < |j| ==> j[p] < |a|
    ensures StepsAt(a, i + j) == StepsAt(a, i) + StepsAt(a, j)
    decreases |i|
  {
    if i == [] {
      assert i + j == j;
    } else {
      assert (i + j)[1..] == i[1..] + j;
      StepsAtAppend(a, i[1..], j);
    }
  }

  /** The bucket of a type holds exactly the steps of that type, in catalogue
      order; a type without a bucket has no steps. */
  lemma TypeBucketIsFilter(a: seq<Step>, g: GherkinType)
    ensures var b := BucketBy(GherkinKeys(a));
      StepsAt(a, if g in b then b[g] else []) == OfType(a, g)
  {
    BucketExact(GherkinKeys(a), |a|, g);
    TypeIndicesSelect(a, g, |a|);
    assert a[..|a|] == a;
  }

  /** The bucket of a prefix holds exactly the steps with that prefix. */
  lemma PrefixBucketIsFilter(host: Host, a: seq<Step>, key: string)
    requires key in BucketBy(PrefixKeys(host, a))
    ensures StepsAt(a, BucketBy(PrefixKeys(host, a))[key]) == OfPrefix(host, a, key)
  {
    BucketExact(PrefixKeys(host, a), |a|, key);
    PrefixIndicesSelect(host, a, key, |a|);
    assert a[..|a|] == a;
  }

  // ------------------------------------------------------------------------
  // Usage counts

  /** `getElementCount`: a missing or zero entry reads as 0. */
  function ElementCount(counts: map<string, nat>, id: string): nat {
    if id in counts then counts[id] else 0
  }

  /** `incrementElementCount` on the count table. */
  function Bump(counts: map<string, nat>, id: string): (r: map<string, nat>)
    ensures ElementCount(r, id) == ElementCount(counts, id) + 1
    ensures forall other :: other != id ==> ElementCount(r, other) == ElementCount(counts, other)
    ensures r.Keys == counts.Keys + {id}
  {
    counts[id := if id in counts && counts[id] != 0 then counts[id] + 1 else 1]
  }

  /** The counts after one increment per id, in order. */
  function Tally(counts: map<string, nat>, ids: seq<string>): map<string, nat>
  {
    if ids == [] then counts else Bump(Tally(counts, ids[..|ids| - 1]), ids[|ids| - 1])
  }

  /** Counting two lists of ids is counting the first, then the second. */
  lemma {:induction false} TallyAppend(counts: map<string, nat>, a: seq<string>, b: seq<string>)
    ensures Tally(counts, a + b) == Tally(Tally(counts, a), b)
    decreases |b|
  {
    if b == [] {
      assert a + b == a;
    } else {
      assert (a + b)[..|a + b| - 1] == a + b[..|b| - 1];
      TallyAppend(counts, a, b[..|b| - 1]);
    }
  }

  function Occurrences(ids: seq<string>, id: string): nat {
    if ids == [] then 0 else Occurrences(ids[..|ids| - 1], id) + (if ids[|ids| - 1] == id then 1 else 0)
  }

  /** Each id is counted as often as it occurs. */
  lemma {:induction false} TallyCounts(counts: map<string, nat>, ids: seq<string>, id: string)
    ensures ElementCount(Tally(counts, ids), id) == ElementCount(counts, id) + Occurrences(ids, id)
  {
    if ids != [] {
      TallyCounts(counts, ids[..|ids| - 1], id);
    }
  }

  /** Every step's count set from a count table. */
  function WithCounts(a: seq<Step>, counts: map<string, nat>): (r: seq<Step>)
    ensures |r| == |a|
    ensures forall k :: 0 <= k < |a| ==> r[k] == a[k].(count := ElementCount(counts, a[k].id))
  {
    seq(|a|, k requires 0 <= k < |a| => a[k].(count := ElementCount(counts, a[k].id)))
  }

  /** Setting counts changes neither the types nor the texts, so the buckets
      stay valid. */
  lemma WithCountsKeys(host: Host, a: seq<Step>, counts: map<string, nat>)
    ensures GherkinKeys(WithCounts(a, counts)) == GherkinKeys(a)
    ensures PrefixKeys(host, WithCounts(a, counts)) == PrefixKeys(host, a)
  {
  }

  // ------------------------------------------------------------------------
  // Lookup

  /** The filter of `getStepByText`: the type, when given, must agree, and the
      step's expression must match the text. */
  predicate Accepts(host: Host, s: Step, text: string, gherkin: Option<GherkinType>) {
    (gherkin.None? || s.gherkin == gherkin.value) && host.matches(s.regText, text)
  }

  /** The first position at or after `from` whose step accepts the text. */
  function FirstAccepting(host: Host, a: seq<Step>, text: string, gherkin: Option<GherkinType>, from: nat)
    : (r: Option<nat>)
    ensures r.Some? ==> from <= r.value < |a| && Accepts(host, a[r.value], text, gherkin)
    ensures r.Some? ==> forall j :: from <= j < r.value ==> !Accepts(host, a[j], text, gherkin)
    ensures r.None? ==> forall j :: from <= j < |a| ==> !Accepts(host, a[j], text, gherkin)
    decreases |a| - from
  {
    if from >= |a| then None
    else if Accepts(host, a[from], text, gherkin) then Some(from)
    else FirstAccepting(host, a, text, gherkin, from + 1)
  }

  /** Position `k` holds the first step that accepts the text. */
  predicate FirstAt(host: Host, a: seq<Step>, text: string, gherkin: Option<GherkinType>, k: nat) {
    k < |a| && Accepts(host, a[k], text, gherkin) &&
    forall j :: 0 <= j < k ==> !Accepts(host, a[j], text, gherkin)
  }

  /** `getStepByText`: the first step of the catalogue that accepts the text. */
  function FindStep(host: Host, a: seq<Step>, text: string, gherkin: Option<GherkinType>): (r: Option<Step>)
    ensures r.None? <==> forall j :: 0 <= j < |a| ==> !Accepts(host, a[j], text, gherkin)
    ensures r.Some? ==> exists k: nat :: FirstAt(host, a, text, gherkin, k) && a[k] == r.value
  {
    match FirstAccepting(host, a, text, gherkin, 0)
    case None => None
    case Some(k) => Some(a[k])
  }

  // ------------------------------------------------------------------------
  // Ranking

  /** Inserts `x` before the first step whose count does not exceed its own. */
  function Insert(x: Step, t: seq<Step>): (r: seq<Step>)
    ensures multiset(r) == multiset(t) + multiset{x}
  {
    if t == [] then [x]
    else if x.count >= t[0].count then [x] + t
    else
      assert t == [t[0]] + t[1..];
      [t[0]] + Insert(x, t[1..])
  }

  /** `.sort((a, b) => b.count - a.count)`: most used first, steps with equal
      counts in their original order (the sort is stable). */
  function SortByCount(s: seq<Step>): (r: seq<Step>)
    ensures multiset(r) == multiset(s)
  {
    if s == [] then []
    else
      assert s == [s[0]] + s[1..];
      Insert(s[0], SortByCount(s[1..]))
  }

  predicate CountDescending(r: seq<Step>) {
    forall p, q :: 0 <= p < q < |r| ==> r[p].count >= r[q].count
  }

  lemma {:induction false} InsertDescending(x: Step, t: seq<Step>)
    requires CountDescending(t)
    ensures CountDescending(Insert(x, t))
  {
    if t != [] && x.count < t[0].count {
      InsertDescending(x, t[1..]);
      var rest := Insert(x, t[1..]);
      forall y | y in rest ensures y.count <= t[0].count {
        assert y in multiset(rest);
        if y != x {
          assert y in multiset(t[1..]);
        }
      }
    }
  }

  lemma {:induction false} SortDescending(s: seq<Step>)
    ensures CountDescending(SortByCount(s))
  {
    if s != [] {
      SortDescending(s[1..]);
      InsertDescending(s[0], SortByCount(s[1..]));
    }
  }

  /** The steps with one particular count, in order. */
  function WithCount(s: seq<Step>, c: nat): seq<Step> {
    if s == [] then [] else (if s[0].count == c then [s[0]] else []) + WithCount(s[1..], c)
  }

  lemma {:induction false} InsertStable(x: Step, t: seq<Step>, c: nat)
    ensures WithCount(Insert(x, t), c) == (if x.count == c then [x] else []) + WithCount(t, c)
  {
    if t != [] && x.count < t[0].count {
      InsertStable(x, t[1..], c);
      assert Insert(x, t) == [t[0]] + Insert(x, t[1..]);
      PassStable(x, t, Insert(x, t[1..]), c);
    } else {
      assert Insert(x, t) == [x] + t;
      WithCountCons(x, t, c);
    }
  }

  /** Moving `x` past a head with a larger count keeps the order per count. */
  lemma PassStable(x: Step, t: seq<Step>, rest: seq<Step>, c: nat)
    requires t != [] && x.count < t[0].count
    requires WithCount(rest, c) == (if x.count == c then [x] else []) + WithCount(t[1..], c)
    ensures WithCount([t[0]] + rest, c) == (if x.count == c then [x] else []) + WithCount(t, c)
  {
    var hx: seq<Step> := if x.count == c then [x] else [];
    var h: seq<Step> := if t[0].count == c then [t[0]] else [];
    WithCountCons(t[0], rest, c);
    assert t == [t[0]] + t[1..];
    WithCountCons(t[0], t[1..], c);
    var w := WithCount(t[1..], c);
    if h == [] {
      assert h + (hx + w) == hx + w;
      assert h + w == w;
    } else {
      assert hx == [];
      assert hx + w == w;
      assert hx + (h + w) == h + w;
    }
  }

  lemma WithCountCons(h: Step, t: seq<Step>, c: nat)
    ensures WithCount([h] + t, c) == (if h.count == c then [h] else []) + WithCount(t, c)
  {
    assert ([h] + t)[1..] == t;
  }

  /** Stability: the steps of each count keep their relative order. */
  lemma {:induction false} SortStable(s: seq<Step>, c: nat)
    ensures WithCount(SortByCount(s), c) == WithCount(s, c)
  {
    if s != [] {
      SortStable(s[1..], c);
      InsertStable(s[0], SortByCount(s[1..]), c);
    }
  }

  /** `Array.prototype.slice(0, limit)`: a negative limit counts from the end. */
  function SliceTo<T>(s: seq<T>, limit: int): (r: seq<T>)
    ensures limit >= 0 ==> r == s[..if limit <= |s| then limit else |s|]
    ensures limit < 0 ==> r == s[..if |s| + limit >= 0 then |s| + limit else 0]
  {
    if limit >= 0 then (if limit <= |s| then s[..limit] else s)
    else if |s| + limit >= 0 then s[..|s| + limit]
    else []
  }

  /** The steps whose partial expression matches the typed text, in order. */
  function Matching(host: Host, s: seq<Step>, stepPart: string): (r: seq<Step>)
    ensures forall x :: x in r ==> x in s && host.matches(x.partialRegText, stepPart)
    ensures forall x :: x in s && host.matches(x.partialRegText, stepPart) ==> x in r
  {
    if s == [] then []
    else (if host.matches(s[0].partialRegText, stepPart) then [s[0]] else []) + Matching(host, s[1..], stepPart)
  }

  /** The number of completion items offered: the setting, or 50 when unset. */
  function CompletionLimit(settings: Settings): (n: int)
    ensures settings.maxCompletionItems != 0 ==> n == settings.maxCompletionItems
    ensures settings.maxCompletionItems == 0 ==> n == 50
  {
    if settings.maxCompletionItems == 0 then 50 else settings.maxCompletionItems
  }

  /** The candidates offered for completion: matching, most used first, cut
      at the limit. */
  function Ranked(settings: Settings, host: Host, candidates: seq<Step>, stepPart: string): seq<Step> {
    SliceTo(SortByCount(Matching(host, candidates, stepPart)), CompletionLimit(settings))
  }

  /** The offered steps are matching candidates, most used first, no more
      than the limit, and every matching candidate is offered while the limit
      is not reached. */
  lemma RankedProperties(settings: Settings, host: Host, candidates: seq<Step>, stepPart: string)
    ensures var r := Ranked(settings, host, candidates, stepPart);
      CountDescending(r) &&
      (forall x :: x in r ==> x in candidates && host.matches(x.partialRegText, stepPart)) &&
      (CompletionLimit(settings) >= 0 ==> |r| <= CompletionLimit(settings)) &&
      (|Matching(host, candidates, stepPart)| <= CompletionLimit(settings) ==>
        multiset(r) == multiset(Matching(host, candidates, stepPart)))
  {
    var m := Matching(host, candidates, stepPart);
    var sorted := SortByCount(m);
    SortDescending(m);
    var r := Ranked(settings, host, candidates, stepPart);
    assert forall p :: 0 <= p < |r| ==> r[p] == sorted[p];
    forall x | x in r ensures x in candidates && host.matches(x.partialRegText, stepPart) {
      assert x in multiset(sorted);
    }
    if |m| <= CompletionLimit(settings) {
      assert r == sorted;
    }
  }
}
