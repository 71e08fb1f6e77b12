/**
 * The decision engine of the configurator: the selection transition, the
 * catalog filter, the extraction and ordering of a facet's options, and the
 * single pass over the facets that either asks the next question or gives
 * the final result.
 */
module Logic {
  import opened Wrappers
  import opened Strings
  import opened Sorting
  import opened Values
  import opened Constants
  import opened Catalog

  // ---------------------------------------------------------------------
  // Selections: one entry per facet, `None` for an unanswered facet.
  // ---------------------------------------------------------------------

  datatype Selections = Selections(
    categoria: Option<Value>,
    sistema: Option<Value>,
    persiana: Option<Value>,
    motorizada: Option<Value>,
    material: Option<Value>,
    folhas: Option<Value>)
  {
    /** `selections[facet]`. */
    function Get(f: Facet): Option<Value>
    {
      match f
      case Categoria => categoria
      case Sistema => sistema
      case Persiana => persiana
      case Motorizada => motorizada
      case Material => material
      case Folhas => folhas
    }

    /** `selections[facet] = v` on a copy. */
    function Set(f: Facet, v: Option<Value>): (r: Selections)
      ensures forall g :: r.Get(g) == if g == f then v else Get(g)
    {
      match f
      case Categoria => this.(categoria := v)
      case Sistema => this.(sistema := v)
      case Persiana => this.(persiana := v)
      case Motorizada => this.(motorizada := v)
      case Material => this.(material := v)
      case Folhas => this.(folhas := v)
    }
  }

  /** Every facet unanswered: the state at start-up and after a restart. */
  const EmptySelections: Selections := Selections(None, None, None, None, None, None)

  /** The selections whose entry for `f` is `h(f)`. */
  function Tabulate(h: Facet -> Option<Value>): (r: Selections)
    ensures forall f :: r.Get(f) == h(f)
  {
    Selections(h(Categoria), h(Sistema), h(Persiana), h(Motorizada), h(Material), h(Folhas))
  }

  /** Two selections that agree on every facet are equal. */
  lemma SelectionsExt(a: Selections, b: Selections)
    requires forall f :: a.Get(f) == b.Get(f)
    ensures a == b
  {
    assert a.Get(Categoria) == b.Get(Categoria) && a.Get(Sistema) == b.Get(Sistema);
    assert a.Get(Persiana) == b.Get(Persiana) && a.Get(Motorizada) == b.Get(Motorizada);
    assert a.Get(Material) == b.Get(Material) && a.Get(Folhas) == b.Get(Folhas);
  }

  /** `t` keeps every answer of `s` (and may answer more facets). */
  predicate Extends(s: Selections, t: Selections)
  {
    forall f :: s.Get(f).Some? ==> t.Get(f) == s.Get(f)
  }

  /** `persiana === 'sim'`: the dependent facet `motorizada` applies. */
  predicate PersianaIsSim(s: Selections)
  {
    s.persiana == Some(Str(TriggerValue))
  }

  /** A facet the engine may ask about under `s`: every facet but `motorizada`, which needs a blind. */
  predicate Applicable(f: Facet, s: Selections)
  {
    f != Motorizada || PersianaIsSim(s)
  }

  /** `persiana && persiana !== 'sim'`: a truthy blind answer other than the trigger. */
  predicate ForcesMotorOff(persiana: Option<Value>)
  {
    persiana.Some? && Truthy(persiana.value) && persiana.value != Str(TriggerValue)
  }

  /** The dependency rule: a blind answer other than `'sim'` leaves `motorizada` unset. */
  predicate MotorRuleHolds(s: Selections)
  {
    ForcesMotorOff(s.persiana) ==> s.motorizada.None?
  }

  // ---------------------------------------------------------------------
  // Selection transition (calculateNextSelections)
  // ---------------------------------------------------------------------

  /** Sets `f` to `v`, clears every later facet, then applies the dependency rule. */
  function NextSelections(s: Selections, f: Facet, v: Option<Value>): Selections
  {
    var reset := Tabulate(g => if g == f then v else if Ordinal(f) < Ordinal(g) then None else s.Get(g));
    if ForcesMotorOff(reset.persiana) then reset.Set(Motorizada, None) else reset
  }

  /** `calculateNextSelections(current, facet, value)`: updates a copy of `current` in a loop. */
  method CalculateNextSelections(current: Selections, facet: Facet, value: Option<Value>) returns (next: Selections)
    ensures next == NextSelections(current, facet, value)
  {
    var idx := Ordinal(facet);
    next := current;
    next := next.Set(facet, value);
    for i := idx + 1 to |FacetOrder|
      invariant forall g :: next.Get(g) == (if g == facet then value else if idx < Ordinal(g) < i then None else current.Get(g))
    {
      next := next.Set(FacetOrder[i], None);
    }
    if ForcesMotorOff(next.persiana) {
      next := next.Set(Motorizada, None);
    }
    var reset := Tabulate(g => if g == facet then value else if idx < Ordinal(g) then None else current.Get(g));
    if ForcesMotorOff(reset.persiana) {
      SelectionsExt(next, reset.Set(Motorizada, None));
    } else {
      SelectionsExt(next, reset);
    }
  }

  /**
   * What a transition does to each facet: the chosen facet takes the value
   * (unless it is `motorizada` under a non-`'sim'` blind), later facets are
   * cleared, earlier facets keep their values except that `motorizada` is
   * cleared under a non-`'sim'` blind; the result obeys the dependency rule.
   */
  lemma NextSelectionsSpec(s: Selections, f: Facet, v: Option<Value>)
    ensures var r := NextSelections(s, f, v);
      && r.Get(f) == (if f == Motorizada && ForcesMotorOff(s.persiana) then None else v)
      && (forall g :: Ordinal(f) < Ordinal(g) ==> r.Get(g).None?)
      && (forall g :: Ordinal(g) < Ordinal(f) && g != Motorizada ==> r.Get(g) == s.Get(g))
      && (Ordinal(Motorizada) < Ordinal(f) ==>
            r.motorizada == if ForcesMotorOff(s.persiana) then None else s.motorizada)
      && MotorRuleHolds(r)
  {
  }

  /** Applying the same answer twice is the same as applying it once. */
  lemma NextSelectionsIdempotent(s: Selections, f: Facet, v: Option<Value>)
    ensures NextSelections(NextSelections(s, f, v), f, v) == NextSelections(s, f, v)
  {
    var once := NextSelections(s, f, v);
    var twice := NextSelections(once, f, v);
    NextSelectionsSpec(s, f, v);
    NextSelectionsSpec(once, f, v);
    forall g ensures twice.Get(g) == once.Get(g) {
      if g == Motorizada && Ordinal(f) > Ordinal(Motorizada) {
        assert once.persiana == s.persiana;
      }
    }
    SelectionsExt(twice, once);
  }

  // ---------------------------------------------------------------------
  // Filtering (getProductField, applyFilters)
  // ---------------------------------------------------------------------

  /** `getProductField(product, facet)`: the product field `FIELD_MAP` names for the facet. */
  function GetProductField(p: Product, f: Facet): Option<Value>
  {
    ProductField(p, FieldMap(f))
  }

  /** The selection `s[f]` takes part in the filter. */
  predicate Constrains(s: Selections, f: Facet)
  {
    s.Get(f).Some? && Applicable(f, s)
  }

  /** The product's field for `f` is present and renders as `sel` does (loose equality). */
  predicate Agrees(p: Product, f: Facet, sel: Value)
  {
    var val := GetProductField(p, f);
    val.Some? && Render(val.value) == Render(sel)
  }

  /** The filter callback's loop over `FACET_ORDER`, from position `i` on. */
  predicate MatchesFrom(s: Selections, p: Product, i: nat)
    requires i <= |FacetOrder|
    decreases |FacetOrder| - i
  {
    if i == |FacetOrder| then true
    else
      var facet := FacetOrder[i];
      var sel := s.Get(facet);
      if sel.None? then MatchesFrom(s, p, i + 1)
      else if facet == Motorizada && !PersianaIsSim(s) then MatchesFrom(s, p, i + 1)
      else
        var val := GetProductField(p, facet);
        if val.None? || Render(val.value) != Render(sel.value) then false
        else MatchesFrom(s, p, i + 1)
  }

  /** The product passes the filter of `applyFilters`. */
  predicate Matches(s: Selections, p: Product)
  {
    MatchesFrom(s, p, 0)
  }

  lemma {:induction false} MatchesFromIff(s: Selections, p: Product, i: nat)
    requires i <= |FacetOrder|
    ensures MatchesFrom(s, p, i) <==>
      forall f :: Ordinal(f) >= i && Constrains(s, f) ==> Agrees(p, f, s.Get(f).value)
    decreases |FacetOrder| - i
  {
    if i < |FacetOrder| {
      MatchesFromIff(s, p, i + 1);
      var facet := FacetOrder[i];
      assert Ordinal(facet) == i;
      forall f | Ordinal(f) >= i && f != facet ensures Ordinal(f) >= i + 1 {
        assert FacetOrder[Ordinal(f)] == f;
      }
    }
  }

  /** A product matches exactly when it agrees with every selection that takes part. */
  lemma MatchesIff(s: Selections, p: Product)
    ensures Matches(s, p) <==> forall f :: Constrains(s, f) ==> Agrees(p, f, s.Get(f).value)
  {
    MatchesFromIff(s, p, 0);
  }

  /** `applyFilters(selections, catalog)`: the matching rows, in catalog order. */
  function ApplyFilters(s: Selections, catalog: seq<Product>): (r: seq<Product>)
    ensures |r| <= |catalog|
  {
    if catalog == [] then []
    else (if Matches(s, catalog[0]) then [catalog[0]] else []) + ApplyFilters(s, catalog[1..])
  }

  /** The filter keeps exactly the catalog rows that match the selections. */
  lemma {:induction false} ApplyFiltersMembers(s: Selections, catalog: seq<Product>)
    ensures forall p :: p in ApplyFilters(s, catalog) <==> p in catalog && Matches(s, p)
    decreases |catalog|
  {
    if catalog != [] {
      ApplyFiltersMembers(s, catalog[1..]);
      assert catalog == [catalog[0]] + catalog[1..];
    }
  }

  /** `a` is `b` with some elements left out, the rest kept in order. */
  predicate Subsequence<T(==)>(a: seq<T>, b: seq<T>)
    decreases |b|
  {
    if a == [] then true
    else if b == [] then false
    else (a[0] == b[0] && Subsequence(a[1..], b[1..])) || Subsequence(a, b[1..])
  }

  lemma {:induction false} SubsequenceRefl<T>(a: seq<T>)
    ensures Subsequence(a, a)
    decreases |a|
  {
    if a != [] {
      SubsequenceRefl(a[1..]);
    }
  }

  lemma SubsequenceCons<T>(x: T, a: seq<T>, b: seq<T>)
    requires Subsequence(a, b)
    ensures Subsequence([x] + a, [x] + b)
  {
    assert ([x] + a)[1..] == a && ([x] + b)[1..] == b;
  }

  lemma SubsequenceSkip<T>(x: T, a: seq<T>, b: seq<T>)
    requires Subsequence(a, b)
    ensures Subsequence(a, [x] + b)
  {
    assert ([x] + b)[1..] == b;
  }

  /** The filter keeps catalog order: its result is a subsequence of the catalog. */
  lemma {:induction false} ApplyFiltersIsSubsequence(s: Selections, catalog: seq<Product>)
    ensures Subsequence(ApplyFilters(s, catalog), catalog)
    decreases |catalog|
  {
    if catalog != [] {
      ApplyFiltersIsSubsequence(s, catalog[1..]);
      var r, rest := ApplyFilters(s, catalog), ApplyFilters(s, catalog[1..]);
      if Matches(s, catalog[0]) {
        assert r[0] == catalog[0] && r[1..] == rest;
      } else {
        assert r == rest;
      }
    }
  }

  /** With nothing answered, the whole catalog matches. */
  lemma {:induction false} ApplyFiltersEmpty(catalog: seq<Product>)
    ensures ApplyFilters(EmptySelections, catalog) == catalog
    decreases |catalog|
  {
    if catalog != [] {
      MatchesIff(EmptySelections, catalog[0]);
      ApplyFiltersEmpty(catalog[1..]);
    }
  }

  /** Every selection that takes part under `s` also takes part, with the same value, under an extension. */
  lemma ExtendsMatches(s: Selections, t: Selections, p: Product)
    requires Extends(s, t)
    requires Matches(t, p)
    ensures Matches(s, p)
  {
    MatchesIff(s, p);
    MatchesIff(t, p);
    forall f | Constrains(s, f) ensures Agrees(p, f, s.Get(f).value) {
      assert Constrains(t, f);
    }
  }

  /** Monotonic narrowing: answering more facets never adds a row, and keeps the order. */
  lemma {:induction false} ApplyFiltersMonotonic(s: Selections, t: Selections, catalog: seq<Product>)
    requires Extends(s, t)
    ensures Subsequence(ApplyFilters(t, catalog), ApplyFilters(s, catalog))
    decreases |catalog|
  {
    if catalog != [] {
      var head := catalog[0];
      ApplyFiltersMonotonic(s, t, catalog[1..]);
      var rt, rs := ApplyFilters(t, catalog[1..]), ApplyFilters(s, catalog[1..]);
      if Matches(t, head) {
        ExtendsMatches(s, t, head);
        assert ApplyFilters(t, catalog) == [head] + rt;
        assert ApplyFilters(s, catalog) == [head] + rs;
        SubsequenceCons(head, rt, rs);
      } else if Matches(s, head) {
        assert ApplyFilters(t, catalog) == rt;
        assert ApplyFilters(s, catalog) == [head] + rs;
        SubsequenceSkip(head, rt, rs);
      } else {
        assert ApplyFilters(t, catalog) == rt;
        assert ApplyFilters(s, catalog) == rs;
      }
    }
  }

  // ---------------------------------------------------------------------
  // Options of a facet (getUniqueOptions)
  // ---------------------------------------------------------------------

  /**
   * The comparators of the two sorts: numbers by value (`(a, b) => a - b`),
   * text in character order (the default sort). The options of one facet are
   * all numbers or all text; across the two kinds numbers come first.
   */
  function OptionLe(a: Value, b: Value): bool
  {
    match (a, b)
    case (Num(x), Num(y)) => x <= y
    case (Str(x), Str(y)) => LexLe(x, y)
    case (Num(_), Str(_)) => true
    case (Str(_), Num(_)) => false
  }

  lemma OptionLeIsTotalPreorder()
    ensures TotalPreorder(OptionLe)
    ensures forall a, b :: OptionLe(a, b) && OptionLe(b, a) ==> a == b
  {
    forall a, b ensures OptionLe(a, b) || OptionLe(b, a) {
      if a.Str? && b.Str? { LexLeTotal(a.s, b.s); }
    }
    forall a, b, c | OptionLe(a, b) && OptionLe(b, c) ensures OptionLe(a, c) {
      if a.Str? && b.Str? && c.Str? { LexLeTransitive(a.s, b.s, c.s); }
    }
    forall a, b | OptionLe(a, b) && OptionLe(b, a) ensures a == b {
      if a.Str? && b.Str? { LexLeAntisymmetric(a.s, b.s); }
    }
  }

  predicate NoDuplicates<T(==)>(s: seq<T>)
  {
    forall i, j :: 0 <= i < j < |s| ==> s[i] != s[j]
  }

  /** The `Set` the loop fills: each present field value once, in order of first occurrence. */
  function DistinctValues(f: Facet, products: seq<Product>): (r: seq<Value>)
    ensures NoDuplicates(r)
    ensures forall v :: v in r <==> exists p :: p in products && GetProductField(p, f) == Some(v)
  {
    if products == [] then []
    else
      var init := products[..|products| - 1];
      var last := products[|products| - 1];
      var prev := DistinctValues(f, init);
      assert forall p :: p in products <==> p in init || p == last by {
        assert products == init + [last];
      }
      var v := GetProductField(last, f);
      if v.Some? && v.value !in prev then prev + [v.value] else prev
  }

  /** `Number(v)` for the leaf count (an integer already), `String(v)` for every other facet. */
  function Coerce(f: Facet, v: Value): Value
  {
    if f == Folhas then v else Str(Render(v))
  }

  /** The values as the options list holds them, each coerced for facet `f`. */
  function CoerceAll(f: Facet, vs: seq<Value>): seq<Value>
  {
    if f == Folhas then vs else seq(|vs|, i requires 0 <= i < |vs| => Str(Render(vs[i])))
  }

  /** The options offered for facet `f` among `products`, in display order. */
  function UniqueOptions(f: Facet, products: seq<Product>): seq<Value>
  {
    InsertionSort(CoerceAll(f, DistinctValues(f, products)), OptionLe)
  }

  /** `getUniqueOptions(attribute, products)`: fills a set in a loop, then sorts. */
  method GetUniqueOptions(attribute: Facet, products: seq<Product>) returns (options: seq<Value>)
    ensures options == UniqueOptions(attribute, products)
  {
    var seen: seq<Value> := [];
    for i := 0 to |products|
      invariant seen == DistinctValues(attribute, products[..i])
    {
      var v := GetProductField(products[i], attribute);
      DistinctValuesStep(attribute, products, i);
      if v.Some? && v.value !in seen {
        seen := seen + [v.value];
      }
    }
    assert products[..|products|] == products;
    if attribute == Folhas {
      options := InsertionSort(seen, OptionLe);
    } else {
      var texts := seq(|seen|, i requires 0 <= i < |seen| => Str(Render(seen[i])));
      assert texts == CoerceAll(attribute, seen);
      options := InsertionSort(texts, OptionLe);
    }
  }

  /** One more product adds its value to the distinct values when it is present and new. */
  lemma DistinctValuesStep(f: Facet, products: seq<Product>, i: int)
    requires 0 <= i < |products|
    ensures var prev := DistinctValues(f, products[..i]);
      var v := GetProductField(products[i], f);
      DistinctValues(f, products[..i + 1]) == if v.Some? && v.value !in prev then prev + [v.value] else prev
  {
    assert products[..i + 1][..i] == products[..i];
  }

  /** Every leaf count in `products` is a number. */
  predicate FolhasNumeric(products: seq<Product>)
  {
    forall p :: p in products && GetProductField(p, Folhas).Some? ==> GetProductField(p, Folhas).value.Num?
  }

  /** Every value of facet `f` in `products` is text. */
  predicate TextValued(f: Facet, products: seq<Product>)
  {
    forall p :: p in products && GetProductField(p, f).Some? ==> GetProductField(p, f).value.Str?
  }

  lemma {:induction false} NoDuplicatesCount<T>(s: seq<T>, x: T)
    requires NoDuplicates(s)
    ensures multiset(s)[x] <= 1
    decreases |s|
  {
    if s != [] {
      NoDuplicatesCount(s[1..], x);
      assert s == [s[0]] + s[1..];
      if s[0] == x {
        assert x !in s[1..] by {
          forall k | 0 <= k < |s[1..]| ensures s[1..][k] != x {
            assert s[k + 1] != s[0];
          }
        }
      }
    }
  }

  /** A permutation of a sequence without duplicates has none either. */
  lemma PermutationNoDuplicates<T>(s: seq<T>, t: seq<T>)
    requires NoDuplicates(s) && multiset(s) == multiset(t)
    ensures NoDuplicates(t)
  {
    forall i, j | 0 <= i < j < |t| ensures t[i] != t[j] {
      var x := t[i];
      NoDuplicatesCount(s, x);
      assert t == t[..j] + t[j..];
      assert t[..j][i] == x;
      assert multiset(t)[x] == multiset(t[..j])[x] + multiset(t[j..])[x];
      assert multiset(t[j..])[x] == 0;
      assert t[j..][0] == t[j];
    }
  }

  /** Some product in `products` has a value of facet `f` that coerces to `o`. */
  ghost predicate Offered(f: Facet, products: seq<Product>, o: Value)
  {
    exists p :: p in products && GetProductField(p, f).Some? && o == Coerce(f, GetProductField(p, f).value)
  }

  /** The options before sorting: exactly the coerced present values of the facet. */
  lemma {:induction false} CoercedValues(f: Facet, products: seq<Product>)
    ensures var c := CoerceAll(f, DistinctValues(f, products));
      forall o :: o in c <==> Offered(f, products, o)
  {
    var vals := DistinctValues(f, products);
    var c := CoerceAll(f, vals);
    forall o ensures o in c <==> Offered(f, products, o) {
      if o in c {
        var k :| 0 <= k < |c| && c[k] == o;
        assert vals[k] in vals;
      }
      if p :| p in products && GetProductField(p, f).Some? && o == Coerce(f, GetProductField(p, f).value) {
        var v := GetProductField(p, f).value;
        assert v in vals;
        var k :| 0 <= k < |vals| && vals[k] == v;
        assert c[k] == o;
      }
    }
  }

  /** Sorting keeps the elements and orders them. */
  lemma SortOptions(c: seq<Value>)
    ensures var r := InsertionSort(c, OptionLe);
      && multiset(r) == multiset(c)
      && (forall o :: o in r <==> o in c)
      && (forall i, j :: 0 <= i < j < |r| ==> OptionLe(r[i], r[j]))
  {
    var r := InsertionSort(c, OptionLe);
    OptionLeIsTotalPreorder();
    InsertionSortCorrect(c, OptionLe);
    forall o ensures o in r <==> o in c {
      assert o in r <==> o in multiset(r);
      assert o in c <==> o in multiset(c);
    }
  }

  /**
   * The options are exactly the coerced present values of the facet, and
   * with no products there are none.
   */
  lemma UniqueOptionsMembers(f: Facet, products: seq<Product>)
    ensures var r := UniqueOptions(f, products);
      && (products == [] ==> r == [])
      && (forall o :: o in r <==> Offered(f, products, o))
  {
    CoercedValues(f, products);
    SortOptions(CoerceAll(f, DistinctValues(f, products)));
  }

  /** A sorted sequence without duplicates is strictly ascending. */
  lemma SortedDistinctOptions(r: seq<Value>)
    requires forall i, j :: 0 <= i < j < |r| ==> OptionLe(r[i], r[j])
    requires NoDuplicates(r)
    ensures forall i, j :: 0 <= i < j < |r| ==> OptionLe(r[i], r[j]) && !OptionLe(r[j], r[i])
  {
    OptionLeIsTotalPreorder();
  }

  /**
   * Display order: leaf counts come back in strictly ascending numeric order,
   * every other facet as text in ascending character order (strictly, when
   * the facet's values are all text, so that no two values render alike).
   */
  lemma UniqueOptionsOrder(f: Facet, products: seq<Product>)
    ensures var r := UniqueOptions(f, products);
      && (f != Folhas ==> forall i, j :: 0 <= i < j < |r| ==> r[i].Str? && r[j].Str? && LexLe(r[i].s, r[j].s))
      && (f != Folhas && TextValued(f, products) ==>
            forall i, j :: 0 <= i < j < |r| ==> r[i].Str? && r[j].Str? && LexLt(r[i].s, r[j].s))
      && (f == Folhas && FolhasNumeric(products) ==>
            forall i, j :: 0 <= i < j < |r| ==> r[i].Num? && r[j].Num? && r[i].n < r[j].n)
  {
    var vals := DistinctValues(f, products);
    var c := CoerceAll(f, vals);
    var r := InsertionSort(c, OptionLe);
    SortOptions(c);
    CoercedValues(f, products);
    if f != Folhas {
      assert forall i :: 0 <= i < |r| ==> r[i].Str? by {
        forall i | 0 <= i < |r| ensures r[i].Str? {
          assert r[i] in c;
        }
      }
    }
    if f == Folhas || TextValued(f, products) {
      forall i, j | 0 <= i < j < |c| ensures c[i] != c[j] {
        assert vals[i] in vals && vals[j] in vals;
      }
      PermutationNoDuplicates(c, r);
      SortedDistinctOptions(r);
      if f == Folhas && FolhasNumeric(products) {
        forall i | 0 <= i < |r| ensures r[i].Num? {
          assert r[i] in c;
          var k :| 0 <= k < |c| && c[k] == r[i];
          assert vals[k] in vals;
        }
      }
    }
  }

  /** No two options tie under the comparator: each comes strictly before the next. */
  predicate StrictlyAscending(r: seq<Value>)
  {
    forall i, j :: 0 <= i < j < |r| ==> OptionLe(r[i], r[j]) && !OptionLe(r[j], r[i])
  }

  /** Two strictly ascending sequences with the same elements are the same sequence. */
  lemma {:induction false} StrictlyAscendingUnique(r: seq<Value>, t: seq<Value>)
    requires StrictlyAscending(r) && StrictlyAscending(t)
    requires forall o :: o in r <==> o in t
    ensures r == t
    decreases |r|
  {
    if r != [] { assert r[0] in t; }
    if t != [] { assert t[0] in r; }
    if r != [] {
      assert r[0] == t[0] by {
        OptionLeIsTotalPreorder();
        assert r[0] in t && t[0] in r;
        var k :| 0 <= k < |t| && t[k] == r[0];
        var m :| 0 <= m < |r| && r[m] == t[0];
        assert OptionLe(t[0], r[0]) && OptionLe(r[0], t[0]);
      }
      forall o ensures o in r[1..] <==> o in t[1..] {
        assert o in r[1..] <==> o in r && o != r[0];
        assert o in t[1..] <==> o in t && o != t[0];
      }
      StrictlyAscendingUnique(r[1..], t[1..]);
      assert r == [r[0]] + r[1..] && t == [t[0]] + t[1..];
    }
  }

  /**
   * The options never repeat: leaf counts are kept as they are, and the other
   * facets' text values render as themselves.
   */
  lemma UniqueOptionsStrict(f: Facet, products: seq<Product>)
    requires f != Folhas ==> TextValued(f, products)
    ensures StrictlyAscending(UniqueOptions(f, products))
  {
    var vals := DistinctValues(f, products);
    var c := CoerceAll(f, vals);
    var r := InsertionSort(c, OptionLe);
    SortOptions(c);
    forall i, j | 0 <= i < j < |c| ensures c[i] != c[j] {
      assert vals[i] in vals && vals[j] in vals;
    }
    PermutationNoDuplicates(c, r);
    SortedDistinctOptions(r);
  }

  /**
   * The options are determined by what is offered: they are the one strictly
   * ascending listing of the coerced values present among the products.
   */
  lemma UniqueOptionsCharacterized(f: Facet, products: seq<Product>, t: seq<Value>)
    requires f != Folhas ==> TextValued(f, products)
    requires StrictlyAscending(t)
    requires forall o :: o in t <==> Offered(f, products, o)
    ensures UniqueOptions(f, products) == t
  {
    UniqueOptionsStrict(f, products);
    UniqueOptionsMembers(f, products);
    StrictlyAscendingUnique(UniqueOptions(f, products), t);
  }

  // ---------------------------------------------------------------------
  // The decision loop (runFacetLoop)
  // ---------------------------------------------------------------------

  datatype Question = Question(attribute: Facet, title: string, options: seq<Value>)

  /** What the engine hands to the presentation layer. */
  datatype EngineResult = EngineResult(
    selections: Selections,
    finalProduct: bool,
    finalProducts: seq<Product>,
    currentQuestion: Option<Question>)

  /** The loop from facet position `i` on, with working selections `ws`. */
  function DecideFrom(ws: Selections, i: nat, catalog: seq<Product>): EngineResult
    requires i <= |FacetOrder|
    decreases |FacetOrder| - i
  {
    if i == |FacetOrder| then EngineResult(ws, true, ApplyFilters(ws, catalog), None)
    else
      var facet := FacetOrder[i];
      if !Applicable(facet, ws) then DecideFrom(ws, i + 1, catalog)
      else if ws.Get(facet).Some? then DecideFrom(ws, i + 1, catalog)
      else
        var candidates := ApplyFilters(ws, catalog);
        if |candidates| <= 1 then EngineResult(ws, true, candidates, None)
        else
          var options := UniqueOptions(facet, candidates);
          if |options| > 1 then
            EngineResult(ws, false, candidates, Some(Question(facet, Title(facet), options)))
          else if |options| == 1 then DecideFrom(ws.Set(facet, Some(options[0])), i + 1, catalog)
          else EngineResult(ws, true, [], None)
  }

  /** The engine's answer for `selections`. */
  function Decide(selections: Selections, catalog: seq<Product>): EngineResult
  {
    DecideFrom(selections, 0, catalog)
  }

  /** `runFacetLoop(selections)`, with the catalog it filters passed in. */
  method RunFacetLoop(selections: Selections, catalog: seq<Product>) returns (result: EngineResult)
    ensures result == Decide(selections, catalog)
  {
    var workingSelections := selections;
    for i := 0 to |FacetOrder|
      invariant DecideFrom(workingSelections, i, catalog) == Decide(selections, catalog)
    {
      var facet := FacetOrder[i];
      if facet == Motorizada && !PersianaIsSim(workingSelections) {
        continue;
      }
      if workingSelections.Get(facet) != None {
        continue;
      }
      var currentFiltered := ApplyFilters(workingSelections, catalog);
      if |currentFiltered| <= 1 {
        return EngineResult(workingSelections, true, currentFiltered, None);
      }
      var options := GetUniqueOptions(facet, currentFiltered);
      if |options| > 1 {
        return EngineResult(workingSelections, false, currentFiltered,
          Some(Question(facet, Title(facet), options)));
      }
      if |options| == 1 {
        workingSelections := workingSelections.Set(facet, Some(options[0]));
      } else {
        return EngineResult(workingSelections, true, [], None);
      }
    }
    var finalFiltered := ApplyFilters(workingSelections, catalog);
    return EngineResult(workingSelections, true, finalFiltered, None);
  }

  // ---------------------------------------------------------------------
  // What the decision loop guarantees
  // ---------------------------------------------------------------------

  /** Every facet the engine may ask about under `s` is answered. */
  predicate AllDecided(s: Selections)
  {
    forall f :: Applicable(f, s) ==> s.Get(f).Some?
  }

  /**
   * The working selections at the moment the loop reaches position `k`:
   * the final working values before `k`, the caller's values from `k` on.
   */
  function Snapshot(s: Selections, ws: Selections, k: nat): Selections
  {
    Tabulate(g => if Ordinal(g) < k then ws.Get(g) else s.Get(g))
  }

  /**
   * Facet `g` was filled in without a question: when the loop reached it, it
   * was applicable, at least two candidates remained, and they offered
   * exactly one value, the one filled in.
   */
  ghost predicate AutoAssigned(s: Selections, ws: Selections, g: Facet, catalog: seq<Product>)
    requires ws.Get(g).Some?
  {
    var snap := Snapshot(s, ws, Ordinal(g));
    var candidates := ApplyFilters(snap, catalog);
    && Applicable(g, snap)
    && |candidates| >= 2
    && UniqueOptions(g, candidates) == [ws.Get(g).value]
  }

  /**
   * A question is about an applicable facet that the caller left open and
   * that every earlier applicable facet is answered before; it carries the
   * facet's title, the current candidates (at least two) and their options
   * for the facet (at least two).
   */
  ghost predicate QuestionSound(s: Selections, r: EngineResult, catalog: seq<Product>)
    requires r.currentQuestion.Some?
  {
    var q := r.currentQuestion.value;
    && q.title == Title(q.attribute)
    && |q.options| >= 2
    && |r.finalProducts| >= 2
    && r.finalProducts == ApplyFilters(r.selections, catalog)
    && q.options == UniqueOptions(q.attribute, r.finalProducts)
    && s.Get(q.attribute).None?
    && r.selections.Get(q.attribute).None?
    && Applicable(q.attribute, r.selections)
    && (forall g :: Ordinal(g) < Ordinal(q.attribute) && Applicable(g, r.selections) ==> r.selections.Get(g).Some?)
  }

  /** Everything the engine's answer `r` for `s` guarantees. */
  ghost predicate Outcome(s: Selections, r: EngineResult, catalog: seq<Product>)
  {
    && (r.finalProduct <==> r.currentQuestion.None?)
    && Extends(s, r.selections)
    && (forall g :: s.Get(g).None? && r.selections.Get(g).Some? ==> AutoAssigned(s, r.selections, g, catalog))
    && (r.currentQuestion.Some? ==> QuestionSound(s, r, catalog))
    && (r.finalProduct ==> r.finalProducts == [] || r.finalProducts == ApplyFilters(r.selections, catalog))
    && (r.finalProduct && |r.finalProducts| >= 2 ==> AllDecided(r.selections))
  }

  /** What holds of the working selections each time the loop reaches position `i`. */
  ghost predicate LoopInvariant(s: Selections, ws: Selections, i: nat, catalog: seq<Product>)
  {
    && i <= |FacetOrder|
    && (forall g :: Ordinal(g) >= i ==> ws.Get(g) == s.Get(g))
    && Extends(s, ws)
    && (forall g :: Ordinal(g) < i && s.Get(g).None? && ws.Get(g).Some? ==> AutoAssigned(s, ws, g, catalog))
    && (forall g :: Ordinal(g) < i && Applicable(g, ws) ==> ws.Get(g).Some?)
  }

  /** Passing over an inapplicable or answered facet keeps the invariant. */
  lemma SkipKeepsInvariant(s: Selections, ws: Selections, i: nat, catalog: seq<Product>)
    requires LoopInvariant(s, ws, i, catalog) && i < |FacetOrder|
    requires !Applicable(FacetOrder[i], ws) || ws.Get(FacetOrder[i]).Some?
    ensures LoopInvariant(s, ws, i + 1, catalog)
  {
    assert Ordinal(FacetOrder[i]) == i;
  }

  /** `AutoAssigned` depends only on the snapshot before `g` and the value of `g`. */
  lemma AutoAssignedTransfer(s: Selections, ws: Selections, ws': Selections, g: Facet, catalog: seq<Product>)
    requires ws.Get(g).Some? && ws'.Get(g) == ws.Get(g)
    requires Snapshot(s, ws', Ordinal(g)) == Snapshot(s, ws, Ordinal(g))
    requires AutoAssigned(s, ws, g, catalog)
    ensures AutoAssigned(s, ws', g, catalog)
  {
  }

  /** The facet just filled in was assigned without a question. */
  lemma AssignIsAuto(s: Selections, ws: Selections, i: nat, catalog: seq<Product>, o: Value)
    requires i < |FacetOrder| && Ordinal(FacetOrder[i]) == i
    requires forall g :: Ordinal(g) >= i ==> ws.Get(g) == s.Get(g)
    requires Applicable(FacetOrder[i], ws)
    requires |ApplyFilters(ws, catalog)| >= 2
    requires UniqueOptions(FacetOrder[i], ApplyFilters(ws, catalog)) == [o]
    ensures AutoAssigned(s, ws.Set(FacetOrder[i], Some(o)), FacetOrder[i], catalog)
  {
    SelectionsExt(Snapshot(s, ws.Set(FacetOrder[i], Some(o)), i), ws);
  }

  /** Earlier automatic assignments stay justified after filling in position `i`. */
  lemma AssignKeepsEarlier(s: Selections, ws: Selections, i: nat, catalog: seq<Product>, o: Value)
    requires i < |FacetOrder| && Ordinal(FacetOrder[i]) == i
    requires forall g :: Ordinal(g) < i && s.Get(g).None? && ws.Get(g).Some? ==> AutoAssigned(s, ws, g, catalog)
    ensures var ws' := ws.Set(FacetOrder[i], Some(o));
      forall g :: Ordinal(g) < i && s.Get(g).None? && ws'.Get(g).Some? ==> AutoAssigned(s, ws', g, catalog)
  {
    var ws' := ws.Set(FacetOrder[i], Some(o));
    forall g | Ordinal(g) < i && s.Get(g).None? && ws'.Get(g).Some?
      ensures AutoAssigned(s, ws', g, catalog)
    {
      SelectionsExt(Snapshot(s, ws', Ordinal(g)), Snapshot(s, ws, Ordinal(g)));
      AutoAssignedTransfer(s, ws, ws', g, catalog);
    }
  }

  /** Filling in the single offered value keeps the invariant. */
  lemma AssignKeepsInvariant(s: Selections, ws: Selections, i: nat, catalog: seq<Product>, o: Value)
    requires LoopInvariant(s, ws, i, catalog) && i < |FacetOrder|
    requires Applicable(FacetOrder[i], ws) && ws.Get(FacetOrder[i]).None?
    requires |ApplyFilters(ws, catalog)| >= 2
    requires UniqueOptions(FacetOrder[i], ApplyFilters(ws, catalog)) == [o]
    ensures LoopInvariant(s, ws.Set(FacetOrder[i], Some(o)), i + 1, catalog)
  {
    var facet := FacetOrder[i];
    assert Ordinal(facet) == i;
    var ws' := ws.Set(facet, Some(o));
    AssignKeepsAuto(s, ws, i, catalog, o);
    assert forall g :: Ordinal(g) >= i + 1 ==> ws'.Get(g) == s.Get(g);
    assert Extends(s, ws');
    forall g | Ordinal(g) < i + 1 && Applicable(g, ws') ensures ws'.Get(g).Some? {
      if g != facet {
        assert Applicable(g, ws);
      }
    }
  }

  /** After filling in position `i`, every facet filled in so far was filled in without a question. */
  lemma AssignKeepsAuto(s: Selections, ws: Selections, i: nat, catalog: seq<Product>, o: Value)
    requires i < |FacetOrder| && Ordinal(FacetOrder[i]) == i
    requires forall g :: Ordinal(g) >= i ==> ws.Get(g) == s.Get(g)
    requires forall g :: Ordinal(g) < i && s.Get(g).None? && ws.Get(g).Some? ==> AutoAssigned(s, ws, g, catalog)
    requires Applicable(FacetOrder[i], ws)
    requires |ApplyFilters(ws, catalog)| >= 2
    requires UniqueOptions(FacetOrder[i], ApplyFilters(ws, catalog)) == [o]
    ensures var ws' := ws.Set(FacetOrder[i], Some(o));
      forall g :: Ordinal(g) < i + 1 && s.Get(g).None? && ws'.Get(g).Some? ==> AutoAssigned(s, ws', g, catalog)
  {
    var ws' := ws.Set(FacetOrder[i], Some(o));
    AssignIsAuto(s, ws, i, catalog, o);
    AssignKeepsEarlier(s, ws, i, catalog, o);
    forall g | Ordinal(g) < i + 1 && s.Get(g).None? && ws'.Get(g).Some?
      ensures AutoAssigned(s, ws', g, catalog)
    {
      if Ordinal(g) == i {
        assert g == FacetOrder[i];
      }
    }
  }

  /** An answer given at position `i` with the working selections unchanged meets the guarantees. */
  lemma StopOutcome(s: Selections, ws: Selections, i: nat, catalog: seq<Product>, r: EngineResult)
    requires LoopInvariant(s, ws, i, catalog) && i < |FacetOrder|
    requires Applicable(FacetOrder[i], ws) && ws.Get(FacetOrder[i]).None?
    requires r.selections == ws
    requires r.finalProduct ==> r.currentQuestion.None? && |r.finalProducts| <= 1
    requires r.finalProduct ==> r.finalProducts == [] || r.finalProducts == ApplyFilters(ws, catalog)
    requires !r.finalProduct ==> r.currentQuestion.Some? && r.currentQuestion.value.attribute == FacetOrder[i]
    requires r.currentQuestion.Some? ==>
      var q := r.currentQuestion.value;
      && q.title == Title(q.attribute) && |q.options| >= 2 && |r.finalProducts| >= 2
      && r.finalProducts == ApplyFilters(ws, catalog)
      && q.options == UniqueOptions(q.attribute, r.finalProducts)
    ensures Outcome(s, r, catalog)
  {
    assert Ordinal(FacetOrder[i]) == i;
  }

  /** The answer after the last facet meets the guarantees. */
  lemma EndOutcome(s: Selections, ws: Selections, catalog: seq<Product>)
    requires LoopInvariant(s, ws, |FacetOrder|, catalog)
    ensures Outcome(s, EngineResult(ws, true, ApplyFilters(ws, catalog), None), catalog)
  {
  }

  lemma {:induction false} DecideFromOutcome(s: Selections, ws: Selections, i: nat, catalog: seq<Product>)
    requires LoopInvariant(s, ws, i, catalog)
    ensures Outcome(s, DecideFrom(ws, i, catalog), catalog)
    decreases |FacetOrder| - i
  {
    if i == |FacetOrder| {
      EndOutcome(s, ws, catalog);
    } else {
      var facet := FacetOrder[i];
      var r := DecideFrom(ws, i, catalog);
      if !Applicable(facet, ws) || ws.Get(facet).Some? {
        SkipKeepsInvariant(s, ws, i, catalog);
        DecideFromOutcome(s, ws, i + 1, catalog);
      } else {
        var candidates := ApplyFilters(ws, catalog);
        if |candidates| <= 1 {
          StopOutcome(s, ws, i, catalog, r);
        } else {
          var options := UniqueOptions(facet, candidates);
          if |options| == 1 {
            assert options == [options[0]];
            AssignKeepsInvariant(s, ws, i, catalog, options[0]);
            DecideFromOutcome(s, ws.Set(facet, Some(options[0])), i + 1, catalog);
          } else {
            StopOutcome(s, ws, i, catalog, r);
          }
        }
      }
    }
  }

  /** The outcome guarantees hold of the engine's answer for any selections. */
  lemma DecideOutcome(s: Selections, catalog: seq<Product>)
    ensures Outcome(s, Decide(s, catalog), catalog)
  {
    DecideFromOutcome(s, s, 0, catalog);
  }

  /**
   * The engine either asks or answers: `finalProduct` is false exactly when
   * there is a question. A question carries at least two options, which are
   * the facet's options among the current candidates, and at least two
   * candidates. A final answer is the empty list (dead end) or the rows that
   * match the working selections; more than one row only once every
   * applicable facet is answered.
   */
  lemma DecideAsksOrAnswers(s: Selections, catalog: seq<Product>)
    ensures var r := Decide(s, catalog);
      && (r.finalProduct <==> r.currentQuestion.None?)
      && (r.currentQuestion.Some? ==>
            var q := r.currentQuestion.value;
            && q.title == Title(q.attribute)
            && |q.options| >= 2 && |r.finalProducts| >= 2
            && r.finalProducts == ApplyFilters(r.selections, catalog)
            && q.options == UniqueOptions(q.attribute, r.finalProducts))
      && (r.finalProduct ==>
            && (r.finalProducts == [] || r.finalProducts == ApplyFilters(r.selections, catalog))
            && (|r.finalProducts| <= 1 || AllDecided(r.selections)))
  {
    DecideOutcome(s, catalog);
  }

  /**
   * The engine keeps every answer the caller gave, and fills in an open
   * facet only with the single value that all candidates offered when the
   * loop reached it (at least two candidates, the facet applicable).
   */
  lemma DecideKeepsAnswers(s: Selections, catalog: seq<Product>)
    ensures var r := Decide(s, catalog);
      && Extends(s, r.selections)
      && (forall g :: s.Get(g).None? && r.selections.Get(g).Some? ==> AutoAssigned(s, r.selections, g, catalog))
  {
    DecideOutcome(s, catalog);
  }

  /**
   * The engine asks only about a facet the caller left open, that applies
   * under the working selections (`motorizada` only with `persiana` `'sim'`),
   * and after every earlier applicable facet is answered.
   */
  lemma DecideAsksFirstOpenFacet(s: Selections, catalog: seq<Product>)
    ensures var r := Decide(s, catalog);
      r.currentQuestion.Some? ==>
        var f := r.currentQuestion.value.attribute;
        && s.Get(f).None? && r.selections.Get(f).None?
        && (f == Motorizada ==> PersianaIsSim(r.selections))
        && (forall g :: Ordinal(g) < Ordinal(f) && Applicable(g, r.selections) ==> r.selections.Get(g).Some?)
  {
    DecideOutcome(s, catalog);
  }

  /** With a blind answer other than `'sim'`, `motorizada` is never the question. */
  lemma NoMotorQuestionWithoutBlind(s: Selections, catalog: seq<Product>)
    requires s.persiana.Some? && !PersianaIsSim(s)
    ensures var r := Decide(s, catalog);
      r.currentQuestion.Some? ==> r.currentQuestion.value.attribute != Motorizada
  {
    var r := Decide(s, catalog);
    DecideExtends(s, catalog);
    assert r.selections.Get(Persiana) == s.Get(Persiana);
    DecideAsksFirstOpenFacet(s, catalog);
  }

  /** The engine's working selections keep the caller's answers. */
  lemma DecideExtends(s: Selections, catalog: seq<Product>)
    ensures Extends(s, Decide(s, catalog).selections)
  {
    DecideOutcome(s, catalog);
  }
}
