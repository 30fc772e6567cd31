/** The n-way merge of per-chunk extractions (agentic/specialists.py). */
module Merging {
  import opened Lists
  import opened Options
  import MappingAgent

  // ---- first occurrences ------------------------------------------------

  /** Items whose key has not been seen, each key once; an item without a key is dropped. */
  function Unique<T, K(==)>(items: seq<T>, key: T -> Option<K>, seen: set<K>): seq<T> {
    if items == [] then []
    else
      var k := key(items[0]);
      if k.Some? && k.value !in seen then [items[0]] + Unique(items[1..], key, seen + {k.value})
      else Unique(items[1..], key, seen)
  }

  ghost function Keys<T, K>(items: seq<T>, key: T -> Option<K>): set<K> {
    if items == [] then {}
    else (if key(items[0]).Some? then {key(items[0]).value} else {}) + Keys(items[1..], key)
  }

  lemma {:induction false} UniqueSplits<T, K>(a: seq<T>, b: seq<T>, key: T -> Option<K>, seen: set<K>)
    ensures Unique(a + b, key, seen) == Unique(a, key, seen) + Unique(b, key, seen + Keys(a, key))
  {
    if a == [] {
      assert a + b == b;
      assert seen + Keys(a, key) == seen;
    } else {
      var k := key(a[0]);
      assert (a + b)[1..] == a[1..] + b;
      if k.Some? && k.value !in seen {
        UniqueSplits(a[1..], b, key, seen + {k.value});
        assert seen + {k.value} + Keys(a[1..], key) == seen + Keys(a, key);
      } else {
        UniqueSplits(a[1..], b, key, seen);
        assert seen + Keys(a[1..], key) == seen + Keys(a, key);
      }
    }
  }

  lemma {:induction false} KeysOfUnique<T, K>(items: seq<T>, key: T -> Option<K>, seen: set<K>)
    ensures Keys(Unique(items, key, seen), key) == Keys(items, key) - seen
  {
    if items != [] {
      var k := key(items[0]);
      if k.Some? && k.value !in seen {
        var rest := Unique(items[1..], key, seen + {k.value});
        KeysOfUnique(items[1..], key, seen + {k.value});
        assert ([items[0]] + rest)[1..] == rest;
      } else {
        KeysOfUnique(items[1..], key, seen);
      }
    }
  }

  /** Dropping repeats twice, the second time against more keys, is dropping them once. */
  lemma {:induction false} UniqueTwice<T, K>(items: seq<T>, key: T -> Option<K>, first: set<K>, second: set<K>)
    ensures Unique(Unique(items, key, first), key, second) == Unique(items, key, first + second)
  {
    if items != [] {
      var k := key(items[0]);
      if k.Some? && k.value !in first {
        var rest := Unique(items[1..], key, first + {k.value});
        assert ([items[0]] + rest)[1..] == rest;
        if k.value !in second {
          UniqueTwice(items[1..], key, first + {k.value}, second + {k.value});
          assert first + {k.value} + (second + {k.value}) == first + second + {k.value};
        } else {
          UniqueTwice(items[1..], key, first + {k.value}, second);
          assert first + {k.value} + second == first + second;
        }
      } else {
        UniqueTwice(items[1..], key, first, second);
      }
    }
  }

  /** Merging two unique lists gives what merging their sources gives. */
  lemma UniqueGroups<T, K>(a: seq<T>, b: seq<T>, key: T -> Option<K>)
    ensures Unique(Unique(a, key, {}) + Unique(b, key, {}), key, {}) == Unique(a + b, key, {})
  {
    var ua, ub := Unique(a, key, {}), Unique(b, key, {});
    UniqueSplits(ua, ub, key, {});
    UniqueSplits(a, b, key, {});
    KeysOfUnique(a, key, {});
    UniqueTwice(a, key, {}, {});
    UniqueTwice(b, key, {}, {} + Keys(ua, key));
    assert {} + Keys(a, key) == Keys(ua, key) - {} == {} + ({} + Keys(ua, key));
    var none: set<K> := {};
    assert none + none == none;
  }

  lemma {:induction false} MemberHasKey<T, K>(items: seq<T>, key: T -> Option<K>, x: T)
    requires x in items && key(x).Some?
    ensures key(x).value in Keys(items, key)
  {
    if x != items[0] {
      MemberHasKey(items[1..], key, x);
    }
  }

  lemma {:induction false} KeyHasMember<T, K>(items: seq<T>, key: T -> Option<K>, k: K)
    requires k in Keys(items, key)
    ensures exists x :: x in items && key(x) == Some(k)
  {
    if key(items[0]) == Some(k) {
      assert items[0] in items;
    } else {
      KeyHasMember(items[1..], key, k);
      var x :| x in items[1..] && key(x) == Some(k);
      assert x in items;
    }
  }

  lemma {:induction false} UniqueIsSelection<T, K>(items: seq<T>, key: T -> Option<K>, seen: set<K>)
    ensures forall x | x in Unique(items, key, seen) :: x in items && key(x).Some? && key(x).value !in seen
  {
    if items != [] {
      var k := key(items[0]);
      UniqueIsSelection(items[1..], key, if k.Some? then seen + {k.value} else seen);
      UniqueIsSelection(items[1..], key, seen);
    }
  }

  /** The items whose key no earlier item has, in order. */
  ghost function Firsts<T, K>(items: seq<T>, key: T -> Option<K>): seq<T> {
    if items == [] then []
    else
      var n := |items| - 1;
      Firsts(items[..n], key)
      + if key(items[n]).Some? && forall j | 0 <= j < n :: key(items[j]) != key(items[n]) then [items[n]] else []
  }

  lemma {:induction false} KeysAre<T, K>(items: seq<T>, key: T -> Option<K>, k: K)
    ensures k in Keys(items, key) <==> exists j | 0 <= j < |items| :: key(items[j]) == Some(k)
  {
    if items != [] {
      KeysAre(items[1..], key, k);
      if j :| 0 <= j < |items[1..]| && key(items[1..][j]) == Some(k) {
        assert key(items[j + 1]) == Some(k);
      }
      if j :| 0 <= j < |items| && key(items[j]) == Some(k) {
        assert j == 0 || key(items[1..][j - 1]) == Some(k);
      }
    }
  }

  /** What is kept is the first item of each key, in order. */
  lemma {:induction false} UniqueIsFirsts<T, K>(items: seq<T>, key: T -> Option<K>)
    ensures Unique(items, key, {}) == Firsts(items, key)
  {
    if items != [] {
      var n := |items| - 1;
      var front, x := items[..n], items[n];
      UniqueIsFirsts(front, key);
      TakeOne(front, x, key);
      assert items == front + [x];
      if key(x).Some? {
        KeysAre(front, key, key(x).value);
      }
      assert forall j | 0 <= j < n :: front[j] == items[j];
    }
  }

  // ---- best scalars -----------------------------------------------------

  datatype Field = Field(value: string, reference: string, confidence: real, segment: nat)

  /** Keep the better of two values; the earlier one wins a tie. */
  function Better(a: Option<Field>, b: Option<Field>): Option<Field> {
    if b.Some? && (a.None? || b.value.confidence > a.value.confidence) then b else a
  }

  function Best(xs: seq<Option<Field>>): Option<Field> {
    if xs == [] then None else Better(Best(xs[..|xs| - 1]), xs[|xs| - 1])
  }

  lemma {:induction false} BestSplits(a: seq<Option<Field>>, b: seq<Option<Field>>)
    ensures Best(a + b) == Better(Best(a), Best(b))
  {
    if b == [] {
      assert a + b == a;
    } else {
      assert (a + b)[..|a + b| - 1] == a + b[..|b| - 1];
      BestSplits(a, b[..|b| - 1]);
    }
  }

  /** Entry i is a most confident value, and the first such. */
  predicate FirstMaximumAt(xs: seq<Option<Field>>, i: nat) {
    && i < |xs| && xs[i].Some?
    && (forall j | 0 <= j < |xs| && xs[j].Some? :: xs[j].value.confidence <= xs[i].value.confidence)
    && (forall j | 0 <= j < i && xs[j].Some? :: xs[j].value.confidence < xs[i].value.confidence)
  }

  /** A scalar is kept exactly when some chunk offers one, and it is the first most confident one. */
  lemma {:induction false} BestIsFirstMaximum(xs: seq<Option<Field>>)
    ensures Best(xs).None? <==> forall i | 0 <= i < |xs| :: xs[i].None?
    ensures Best(xs).Some? ==> exists i: nat :: FirstMaximumAt(xs, i) && Best(xs) == xs[i]
  {
    if xs != [] {
      var n := |xs| - 1;
      var front := xs[..n];
      BestIsFirstMaximum(front);
      assert forall j | 0 <= j < n :: xs[j] == front[j];
      if Best(front).Some? {
        var i: nat :| FirstMaximumAt(front, i) && Best(front) == front[i];
        assert FirstMaximumAt(xs, if Best(xs) == Best(front) then i else n);
      } else if xs[n].Some? {
        assert FirstMaximumAt(xs, n);
      }
    }
  }

  function FirstText(xs: seq<Option<string>>): Option<string> {
    if xs == [] then None
    else
      var r := FirstText(xs[..|xs| - 1]);
      if r.Some? then r
      else if xs[|xs| - 1].Some? && xs[|xs| - 1].value != "" then xs[|xs| - 1]
      else None
  }

  lemma {:induction false} FirstTextSplits(a: seq<Option<string>>, b: seq<Option<string>>)
    ensures FirstText(a + b) == if FirstText(a).Some? then FirstText(a) else FirstText(b)
  {
    if b == [] {
      assert a + b == a;
    } else {
      assert (a + b)[..|a + b| - 1] == a + b[..|b| - 1];
      FirstTextSplits(a, b[..|b| - 1]);
    }
  }

  predicate Blank(x: Option<string>) {
    x == None || x == Some("")
  }

  /** The summary kept is the first one that is not blank, and there is none only if all are blank. */
  lemma {:induction false} FirstTextIsFirst(xs: seq<Option<string>>)
    ensures FirstText(xs).None? <==> forall k | 0 <= k < |xs| :: Blank(xs[k])
    ensures FirstText(xs).Some? ==>
              exists k | 0 <= k < |xs| ::
                xs[k] == FirstText(xs) && !Blank(xs[k]) && forall j | 0 <= j < k :: Blank(xs[j])
  {
    if xs != [] {
      var n := |xs| - 1;
      FirstTextIsFirst(xs[..n]);
      if FirstText(xs[..n]).Some? {
        var k :| 0 <= k < n && xs[..n][k] == FirstText(xs[..n]) && !Blank(xs[..n][k])
                 && forall j | 0 <= j < k :: Blank(xs[..n][j]);
        assert !Blank(xs[k]);
        assert forall j | 0 <= j < k :: xs[j] == xs[..n][j];
      } else {
        assert forall j | 0 <= j < n :: xs[j] == xs[..n][j];
      }
    }
  }

  // ---- extractions ------------------------------------------------------

  datatype Route = Route(
    category: string,
    modules: seq<string>,
    condition: Option<string>,
    reference: string,
    confidence: real,
    segment: nat
  )

  datatype Raw = Raw(
    summary: Option<string>,
    scalars: seq<Option<Field>>,
    arrays: seq<seq<Field>>,
    mentions: seq<string>,
    conditions: seq<MappingAgent.RawClause>,
    routes: seq<Route>
  )

  const SCALARS: nat := 7
  const ARRAYS: nat := 9

  /** One slot per scalar field and one list per array field of the taxonomy. */
  type Extraction = r: Raw | |r.scalars| == SCALARS && |r.arrays| == ARRAYS
    witness Raw(None, seq(SCALARS, _ => None), seq(ARRAYS, _ => []), [], [], [])

  /** Key normalisation: stripped and folded to lower, or to upper, case. */
  datatype Folding = Folding(lower: string -> string, upper: string -> string)

  function FieldKey(f: Folding): Field -> Option<string> {
    (x: Field) => if f.lower(x.value) == "" then None else Some(f.lower(x.value))
  }

  function MentionKey(): string -> Option<string> {
    (m: string) => if m == "" then None else Some(m)
  }

  function RouteKey(f: Folding): Route -> Option<(string, multiset<string>)> {
    (r: Route) => Some((f.lower(r.category), multiset(Uppers(r.modules, f))))
  }

  function Uppers(ms: seq<string>, f: Folding): seq<string> {
    seq(|ms|, i requires 0 <= i < |ms| => f.upper(ms[i]))
  }

  function Summaries(ps: seq<Extraction>): seq<Option<string>> {
    seq(|ps|, i requires 0 <= i < |ps| => ps[i].summary)
  }

  function Scalars(ps: seq<Extraction>, n: nat): seq<Option<Field>>
    requires n < SCALARS
  {
    seq(|ps|, i requires 0 <= i < |ps| => ps[i].scalars[n])
  }

  function Arrays(ps: seq<Extraction>, n: nat): seq<seq<Field>>
    requires n < ARRAYS
  {
    seq(|ps|, i requires 0 <= i < |ps| => ps[i].arrays[n])
  }

  function Mentions(ps: seq<Extraction>): seq<seq<string>> {
    seq(|ps|, i requires 0 <= i < |ps| => ps[i].mentions)
  }

  function Conditions(ps: seq<Extraction>): seq<seq<MappingAgent.RawClause>> {
    seq(|ps|, i requires 0 <= i < |ps| => ps[i].conditions)
  }

  function Routes(ps: seq<Extraction>): seq<seq<Route>> {
    seq(|ps|, i requires 0 <= i < |ps| => ps[i].routes)
  }

  function MergedArray(ps: seq<Extraction>, n: nat, f: Folding): seq<Field>
    requires n < ARRAYS
  {
    Unique(Concat(Arrays(ps, n)), FieldKey(f), {})
  }

  function Merge(ps: seq<Extraction>, f: Folding): Extraction {
    Raw(
      FirstText(Summaries(ps)),
      seq(SCALARS, n requires 0 <= n < SCALARS => Best(Scalars(ps, n))),
      seq(ARRAYS, n requires 0 <= n < ARRAYS => MergedArray(ps, n, f)),
      Unique(Concat(Mentions(ps)), MentionKey(), {}),
      Concat(Conditions(ps)),
      Unique(Concat(Routes(ps)), RouteKey(f), {})
    )
  }

  lemma MergeScalar(xs: seq<Extraction>, ys: seq<Extraction>, f: Folding, n: nat)
    requires n < SCALARS
    ensures Best(Scalars(xs + ys, n)) == Best(Scalars([Merge(xs, f), Merge(ys, f)], n))
  {
    assert Scalars(xs + ys, n) == Scalars(xs, n) + Scalars(ys, n);
    BestGroups(Scalars(xs, n), Scalars(ys, n));
    ScalarsOfTwo(Merge(xs, f), Merge(ys, f), n);
  }

  lemma ScalarsOfTwo(x: Extraction, y: Extraction, n: nat)
    requires n < SCALARS
    ensures Scalars([x, y], n) == [x.scalars[n], y.scalars[n]]
  {
  }

  lemma BestGroups(a: seq<Option<Field>>, b: seq<Option<Field>>)
    ensures Best(a + b) == Best([Best(a), Best(b)])
  {
    BestSplits(a, b);
    BestSplits([Best(a)], [Best(b)]);
    BestOne(Best(a));
    BestOne(Best(b));
  }

  lemma BestOne(a: Option<Field>)
    ensures Best([a]) == a
  {
    assert [a][..0] == [];
  }

  lemma MergeArray(xs: seq<Extraction>, ys: seq<Extraction>, f: Folding, n: nat)
    requires n < ARRAYS
    ensures MergedArray(xs + ys, n, f) == MergedArray([Merge(xs, f), Merge(ys, f)], n, f)
  {
    assert Arrays(xs + ys, n) == Arrays(xs, n) + Arrays(ys, n);
    assert Arrays([Merge(xs, f), Merge(ys, f)], n) == [MergedArray(xs, n, f), MergedArray(ys, n, f)];
    UniqueColumn(Arrays(xs, n), Arrays(ys, n), FieldKey(f));
  }

  lemma UniqueColumn<T, K>(a: seq<seq<T>>, b: seq<seq<T>>, key: T -> Option<K>)
    ensures var ua, ub := Unique(Concat(a), key, {}), Unique(Concat(b), key, {});
            Unique(Concat([ua, ub]), key, {}) == Unique(Concat(a + b), key, {})
  {
    ConcatSplits(a, b);
    ConcatTwo(Unique(Concat(a), key, {}), Unique(Concat(b), key, {}));
    UniqueGroups(Concat(a), Concat(b), key);
  }

  lemma MergeSummary(xs: seq<Extraction>, ys: seq<Extraction>, f: Folding)
    ensures Merge(xs + ys, f).summary == Merge([Merge(xs, f), Merge(ys, f)], f).summary
  {
    assert Summaries(xs + ys) == Summaries(xs) + Summaries(ys);
    TextGroups(Summaries(xs), Summaries(ys));
    SummariesOfTwo(Merge(xs, f), Merge(ys, f));
  }

  lemma SummariesOfTwo(x: Extraction, y: Extraction)
    ensures Summaries([x, y]) == [x.summary] + [y.summary]
  {
  }

  lemma TextGroups(xs: seq<Option<string>>, ys: seq<Option<string>>)
    ensures FirstText([FirstText(xs)] + [FirstText(ys)]) == FirstText(xs + ys)
  {
    FirstTextSplits(xs, ys);
    FirstTextSplits([FirstText(xs)], [FirstText(ys)]);
    FirstTextKept(xs);
    FirstTextKept(ys);
  }

  lemma {:induction false} FirstTextKept(xs: seq<Option<string>>)
    ensures FirstText([FirstText(xs)]) == FirstText(xs)
  {
    var r := FirstText(xs);
    assert [r][..0] == [];
    if xs != [] {
      FirstTextKept(xs[..|xs| - 1]);
      assert [FirstText(xs[..|xs| - 1])][..0] == [];
    }
  }

  lemma MergeMentions(xs: seq<Extraction>, ys: seq<Extraction>, f: Folding)
    ensures Merge(xs + ys, f).mentions == Merge([Merge(xs, f), Merge(ys, f)], f).mentions
  {
    assert Mentions(xs + ys) == Mentions(xs) + Mentions(ys);
    assert Mentions([Merge(xs, f), Merge(ys, f)]) == [Merge(xs, f).mentions, Merge(ys, f).mentions];
    UniqueColumn(Mentions(xs), Mentions(ys), MentionKey());
  }

  lemma MergeRoutes(xs: seq<Extraction>, ys: seq<Extraction>, f: Folding)
    ensures Merge(xs + ys, f).routes == Merge([Merge(xs, f), Merge(ys, f)], f).routes
  {
    assert Routes(xs + ys) == Routes(xs) + Routes(ys);
    assert Routes([Merge(xs, f), Merge(ys, f)]) == [Merge(xs, f).routes, Merge(ys, f).routes];
    UniqueColumn(Routes(xs), Routes(ys), RouteKey(f));
  }

  lemma MergeConditions(xs: seq<Extraction>, ys: seq<Extraction>, f: Folding)
    ensures Merge(xs + ys, f).conditions == Merge([Merge(xs, f), Merge(ys, f)], f).conditions
  {
    assert Conditions(xs + ys) == Conditions(xs) + Conditions(ys);
    assert Conditions([Merge(xs, f), Merge(ys, f)]) == [Merge(xs, f).conditions, Merge(ys, f).conditions];
    ConcatSplits(Conditions(xs), Conditions(ys));
    ConcatTwo(Concat(Conditions(xs)), Concat(Conditions(ys)));
  }

  lemma MergeSlots(xs: seq<Extraction>, ys: seq<Extraction>, f: Folding)
    ensures var m, g := Merge(xs + ys, f), Merge([Merge(xs, f), Merge(ys, f)], f);
            m.scalars == g.scalars && m.arrays == g.arrays
  {
    var m, g := Merge(xs + ys, f), Merge([Merge(xs, f), Merge(ys, f)], f);
    forall n | 0 <= n < SCALARS
      ensures m.scalars[n] == g.scalars[n]
    {
      MergeScalar(xs, ys, f, n);
    }
    forall n | 0 <= n < ARRAYS
      ensures m.arrays[n] == g.arrays[n]
    {
      MergeArray(xs, ys, f, n);
    }
  }

  /** Merging does not depend on grouping: merging two merges is merging everything. */
  lemma MergeGroups(xs: seq<Extraction>, ys: seq<Extraction>, f: Folding)
    ensures Merge(xs + ys, f) == Merge([Merge(xs, f), Merge(ys, f)], f)
  {
    MergeSummary(xs, ys, f);
    MergeSlots(xs, ys, f);
    MergeMentions(xs, ys, f);
    MergeRoutes(xs, ys, f);
    MergeConditions(xs, ys, f);
  }

  /** The same category and the same modules, as often each, whatever their order and case. */
  predicate SameRoute(q: Route, r: Route, f: Folding) {
    && f.lower(q.category) == f.lower(r.category)
    && multiset(seq(|q.modules|, i requires 0 <= i < |q.modules| => f.upper(q.modules[i])))
       == multiset(seq(|r.modules|, i requires 0 <= i < |r.modules| => f.upper(r.modules[i])))
  }

  lemma SameKeyIsSame(q: Route, r: Route, f: Folding)
    ensures RouteKey(f)(q) == RouteKey(f)(r) <==> SameRoute(q, r, f)
  {
    assert Uppers(q.modules, f) == seq(|q.modules|, i requires 0 <= i < |q.modules| => f.upper(q.modules[i]));
    assert Uppers(r.modules, f) == seq(|r.modules|, i requires 0 <= i < |r.modules| => f.upper(r.modules[i]));
  }

  /** No nonblank array value or mention, and no condition or route, is lost. */
  lemma NothingLost(ps: seq<Extraction>, f: Folding, i: nat, n: nat)
    requires i < |ps| && n < ARRAYS
    ensures var m := Merge(ps, f);
            && (forall x | x in ps[i].arrays[n] && f.lower(x.value) != "" ::
                  exists y :: y in m.arrays[n] && f.lower(y.value) == f.lower(x.value))
            && (forall s | s in ps[i].mentions && s != "" :: s in m.mentions)
            && (forall c | c in ps[i].conditions :: c in m.conditions)
            && (forall r | r in ps[i].routes :: exists q :: q in m.routes && SameRoute(q, r, f))
  {
    var m := Merge(ps, f);
    forall x | x in ps[i].arrays[n] && f.lower(x.value) != ""
      ensures exists y :: y in m.arrays[n] && f.lower(y.value) == f.lower(x.value)
    {
      var y := Kept(Arrays(ps, n), i, FieldKey(f), x);
      assert y in m.arrays[n];
    }
    forall s | s in ps[i].mentions && s != ""
      ensures s in m.mentions
    {
      var y := Kept(Mentions(ps), i, MentionKey(), s);
    }
    forall r | r in ps[i].routes
      ensures exists q :: q in m.routes && SameRoute(q, r, f)
    {
      var y := Kept(Routes(ps), i, RouteKey(f), r);
      SameKeyIsSame(y, r, f);
    }
    InConcat(Conditions(ps), i);
    forall c | c in ps[i].conditions
      ensures c in m.conditions
    {
      var k :| 0 <= k < |ps[i].conditions| && ps[i].conditions[k] == c;
      assert Conditions(ps)[i][k] == c;
    }
  }

  /** Nothing is invented: whatever the merge holds, some chunk said. */
  lemma NothingInvented(ps: seq<Extraction>, f: Folding)
    ensures var m := Merge(ps, f);
            && (m.summary.Some? ==> exists p :: p in ps && p.summary == m.summary)
            && (forall n | 0 <= n < SCALARS && m.scalars[n].Some? ::
                  exists p :: p in ps && p.scalars[n] == m.scalars[n])
            && (forall n, x | 0 <= n < ARRAYS && x in m.arrays[n] :: exists p :: p in ps && x in p.arrays[n])
            && (forall s | s in m.mentions :: s != "" && exists p :: p in ps && s in p.mentions)
            && (forall c | c in m.conditions :: exists p :: p in ps && c in p.conditions)
            && (forall r | r in m.routes :: exists p :: p in ps && r in p.routes)
  {
    var m := Merge(ps, f);
    if m.summary.Some? {
      FirstTextIsFirst(Summaries(ps));
      var k :| 0 <= k < |ps| && Summaries(ps)[k] == m.summary;
      assert ps[k] in ps;
    }
    forall n | 0 <= n < SCALARS && m.scalars[n].Some?
      ensures exists p :: p in ps && p.scalars[n] == m.scalars[n]
    {
      BestIsFirstMaximum(Scalars(ps, n));
      var k :| 0 <= k < |ps| && Scalars(ps, n)[k] == m.scalars[n];
      assert ps[k] in ps;
    }
    forall n, x | 0 <= n < ARRAYS && x in m.arrays[n]
      ensures exists p :: p in ps && x in p.arrays[n]
    {
      UniqueIsSelection(Concat(Arrays(ps, n)), FieldKey(f), {});
      var i := FromConcat(Arrays(ps, n), x);
      assert ps[i] in ps;
    }
    UniqueIsSelection(Concat(Mentions(ps)), MentionKey(), {});
    forall s | s in m.mentions
      ensures exists p :: p in ps && s in p.mentions
    {
      var i := FromConcat(Mentions(ps), s);
      assert ps[i] in ps;
    }
    forall c | c in m.conditions
      ensures exists p :: p in ps && c in p.conditions
    {
      var i := FromConcat(Conditions(ps), c);
      assert ps[i] in ps;
    }
    UniqueIsSelection(Concat(Routes(ps)), RouteKey(f), {});
    forall r | r in m.routes
      ensures exists p :: p in ps && r in p.routes
    {
      var i := FromConcat(Routes(ps), r);
      assert ps[i] in ps;
    }
  }

  /** No item of a deduplicated list appears twice, whatever its case, and no blank array value at all. */
  lemma KeysAppearOnce(ps: seq<Extraction>, f: Folding)
    ensures var m := Merge(ps, f);
            && (forall n, i | 0 <= n < ARRAYS && 0 <= i < |m.arrays[n]| :: f.lower(m.arrays[n][i].value) != "")
            && (forall n, i, j | 0 <= n < ARRAYS && 0 <= i < j < |m.arrays[n]| ::
                  f.lower(m.arrays[n][i].value) != f.lower(m.arrays[n][j].value))
            && (forall i, j | 0 <= i < j < |m.mentions| :: m.mentions[i] != m.mentions[j])
            && (forall i, j | 0 <= i < j < |m.routes| :: !SameRoute(m.routes[i], m.routes[j], f))
  {
    var m := Merge(ps, f);
    forall n | 0 <= n < ARRAYS
      ensures KeysDiffer(m.arrays[n], FieldKey(f))
      ensures forall i | 0 <= i < |m.arrays[n]| :: FieldKey(f)(m.arrays[n][i]).Some?
    {
      UniqueKeysDiffer(Concat(Arrays(ps, n)), FieldKey(f), {});
      UniqueIsSelection(Concat(Arrays(ps, n)), FieldKey(f), {});
    }
    forall n, i, j | 0 <= n < ARRAYS && 0 <= i < j < |m.arrays[n]|
      ensures f.lower(m.arrays[n][i].value) != f.lower(m.arrays[n][j].value)
    {
      assert FieldKey(f)(m.arrays[n][i]) != FieldKey(f)(m.arrays[n][j]);
    }
    MentionsOnce(ps, f);
    RoutesOnce(ps, f);
  }

  lemma MentionsOnce(ps: seq<Extraction>, f: Folding)
    ensures var m := Merge(ps, f); forall i, j | 0 <= i < j < |m.mentions| :: m.mentions[i] != m.mentions[j]
  {
    UniqueKeysDiffer(Concat(Mentions(ps)), MentionKey(), {});
  }

  lemma RoutesOnce(ps: seq<Extraction>, f: Folding)
    ensures var m := Merge(ps, f); forall i, j | 0 <= i < j < |m.routes| :: !SameRoute(m.routes[i], m.routes[j], f)
  {
    var rs := Merge(ps, f).routes;
    UniqueKeysDiffer(Concat(Routes(ps)), RouteKey(f), {});
    forall i, j | 0 <= i < j < |rs|
      ensures !SameRoute(rs[i], rs[j], f)
    {
      assert RouteKey(f)(rs[i]) != RouteKey(f)(rs[j]);
      SameKeyIsSame(rs[i], rs[j], f);
    }
  }

  ghost predicate KeysDiffer<T, K>(items: seq<T>, key: T -> Option<K>) {
    forall i, j | 0 <= i < j < |items| :: key(items[i]) != key(items[j])
  }

  lemma {:induction false} UniqueKeysDiffer<T, K>(items: seq<T>, key: T -> Option<K>, seen: set<K>)
    ensures KeysDiffer(Unique(items, key, seen), key)
  {
    if items != [] {
      var k := key(items[0]);
      if k.Some? && k.value !in seen {
        UniqueKeysDiffer(items[1..], key, seen + {k.value});
        UniqueIsSelection(items[1..], key, seen + {k.value});
      } else {
        UniqueKeysDiffer(items[1..], key, seen);
      }
    }
  }

  /** An item with a key leaves an item with that key in the merge. */
  lemma Kept<T, K>(xss: seq<seq<T>>, i: nat, key: T -> Option<K>, x: T) returns (y: T)
    requires i < |xss| && x in xss[i] && key(x).Some?
    ensures y in Unique(Concat(xss), key, {}) && key(y) == key(x)
  {
    InConcat(xss, i);
    MemberHasKey(Concat(xss), key, x);
    KeysOfUnique(Concat(xss), key, {});
    KeyHasMember(Unique(Concat(xss), key, {}), key, key(x).value);
    y :| y in Unique(Concat(xss), key, {}) && key(y) == Some(key(x).value);
  }

  // ---- the loops --------------------------------------------------------

  /** The seen-set loop, as written for arrays, mentions and routes alike. */
  method CollectUnique<T, K(==)>(lists: seq<seq<T>>, key: T -> Option<K>) returns (items: seq<T>)
    ensures items == Unique(Concat(lists), key, {})
  {
    var seen: set<K> := {};
    items := [];
    var i := 0;
    while i < |lists|
      invariant 0 <= i <= |lists|
      invariant items == Unique(Concat(lists[..i]), key, {}) && seen == Keys(Concat(lists[..i]), key)
    {
      var list := lists[i];
      ghost var before := Concat(lists[..i]);
      var j := 0;
      assert before + list[..0] == before;
      while j < |list|
        invariant 0 <= j <= |list|
        invariant items == Unique(before + list[..j], key, {}) && seen == Keys(before + list[..j], key)
      {
        var k := key(list[j]);
        TakeOne(before + list[..j], list[j], key);
        assert before + list[..j + 1] == before + list[..j] + [list[j]];
        if k.Some? && k.value !in seen {
          seen := seen + {k.value};
          items := items + [list[j]];
        }
        j := j + 1;
      }
      assert list[..j] == list && lists[..i + 1][..i] == lists[..i];
      i := i + 1;
    }
    assert lists[..i] == lists;
  }

  lemma TakeOne<T, K>(done: seq<T>, x: T, key: T -> Option<K>)
    ensures var isNew := key(x).Some? && key(x).value !in Keys(done, key);
            && Unique(done + [x], key, {}) == Unique(done, key, {}) + (if isNew then [x] else [])
            && Keys(done + [x], key) == Keys(done, key) + (if isNew then {key(x).value} else {})
  {
    UniqueSplits(done, [x], key, {});
    KeysSplit(done, [x], key);
    assert [x][1..] == [];
    assert {} + Keys(done, key) == Keys(done, key);
  }

  lemma {:induction false} KeysSplit<T, K>(a: seq<T>, b: seq<T>, key: T -> Option<K>)
    ensures Keys(a + b, key) == Keys(a, key) + Keys(b, key)
  {
    if a == [] {
      assert a + b == b;
    } else {
      assert (a + b)[1..] == a[1..] + b;
      KeysSplit(a[1..], b, key);
    }
  }

  method BestScalar(ps: seq<Extraction>, n: nat) returns (best: Option<Field>)
    requires n < SCALARS
    ensures best == Best(Scalars(ps, n))
  {
    best := None;
    var i := 0;
    while i < |ps|
      invariant 0 <= i <= |ps|
      invariant best == Best(Scalars(ps[..i], n))
    {
      var v := ps[i].scalars[n];
      assert Scalars(ps[..i + 1], n)[..i] == Scalars(ps[..i], n);
      if v.Some? && (best.None? || v.value.confidence > best.value.confidence) {
        best := v;
      }
      i := i + 1;
    }
    assert ps[..i] == ps;
  }

  method MergeScalars(ps: seq<Extraction>) returns (scalars: seq<Option<Field>>)
    ensures |scalars| == SCALARS && forall n | 0 <= n < SCALARS :: scalars[n] == Best(Scalars(ps, n))
  {
    scalars := [];
    while |scalars| < SCALARS
      invariant |scalars| <= SCALARS && forall n | 0 <= n < |scalars| :: scalars[n] == Best(Scalars(ps, n))
    {
      var best := BestScalar(ps, |scalars|);
      scalars := scalars + [best];
    }
  }

  method MergeArrays(ps: seq<Extraction>, f: Folding) returns (arrays: seq<seq<Field>>)
    ensures |arrays| == ARRAYS && forall n | 0 <= n < ARRAYS :: arrays[n] == MergedArray(ps, n, f)
  {
    arrays := [];
    while |arrays| < ARRAYS
      invariant |arrays| <= ARRAYS && forall n | 0 <= n < |arrays| :: arrays[n] == MergedArray(ps, n, f)
    {
      var items := CollectUnique(Arrays(ps, |arrays|), FieldKey(f));
      arrays := arrays + [items];
    }
  }

  method ConcatLists<T>(lists: seq<seq<T>>) returns (all: seq<T>)
    ensures all == Concat(lists)
  {
    all := [];
    var i := 0;
    while i < |lists|
      invariant 0 <= i <= |lists| && all == Concat(lists[..i])
    {
      assert lists[..i + 1][..i] == lists[..i];
      all := all + lists[i];
      i := i + 1;
    }
    assert lists[..i] == lists;
  }

  method MergeExtractions(ps: seq<Extraction>, f: Folding) returns (merged: Extraction)
    ensures merged == Merge(ps, f)
  {
    var scalars := MergeScalars(ps);
    var arrays := MergeArrays(ps, f);
    var mentions := CollectUnique(Mentions(ps), MentionKey());
    var conditions := ConcatLists(Conditions(ps));
    var routes := CollectUnique(Routes(ps), RouteKey(f));
    assert scalars == Merge(ps, f).scalars;
    assert arrays == Merge(ps, f).arrays;
    merged := Raw(FirstText(Summaries(ps)), scalars, arrays, mentions, conditions, routes);
  }
}
