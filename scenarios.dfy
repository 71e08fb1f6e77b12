/**
 * End-to-end runs of the engine on the catalog embedded in script.js. The
 * runs are argued from a handful of facts about the catalog's rows (which rows
 * are windows, which use the `maxim-ar` opening, and the fields of those
 * three rows), so that the long literal table is unfolded only once.
 */
module Scenarios {
  import opened Wrappers
  import opened Values
  import opened Constants
  import opened Catalog
  import opened Logic

  /** The facts about a 27-row catalog that the runs below depend on. */
  ghost predicate ScriptCatalogFacts(c: seq<Product>)
  {
    && |c| == 27
    && (forall i :: 0 <= i < |c| ==> c[i].categoria == Some(Str(if i < 10 then "janela" else "porta")))
    && (forall i :: 0 <= i < |c| ==> c[i].sistema.Some? && c[i].sistema.value.Str?)
    && (forall i :: 0 <= i < |c| ==> (c[i].sistema == Some(Str("maxim-ar")) <==> 7 <= i < 10))
    && (forall i :: 7 <= i < 10 ==> c[i].persiana == Some(Str("nao")) && c[i].material == Some(Str("vidro")))
    && c[7].folhas == Some(Num(1)) && c[8].folhas == Some(Num(2)) && c[9].folhas == Some(Num(3))
  }

  /** The catalog of script.js has these facts. */
  lemma ProductCatalogFacts()
    ensures ScriptCatalogFacts(ProductCatalog)
  {
    CatalogCategories();
    CatalogSystems();
    CatalogMaximArRows();
  }

  lemma CatalogCategories()
    ensures |ProductCatalog| == 27
    ensures forall i :: 0 <= i < |ProductCatalog| ==>
      ProductCatalog[i].categoria == Some(Str(if i < 10 then "janela" else "porta"))
  {
  }

  lemma CatalogSystems()
    ensures forall i :: 0 <= i < |ProductCatalog| ==>
      && ProductCatalog[i].sistema.Some? && ProductCatalog[i].sistema.value.Str?
      && (ProductCatalog[i].sistema == Some(Str("maxim-ar")) <==> 7 <= i < 10)
  {
  }

  lemma CatalogMaximArRows()
    ensures forall i :: 7 <= i < 10 ==>
      ProductCatalog[i].persiana == Some(Str("nao")) && ProductCatalog[i].material == Some(Str("vidro"))
    ensures ProductCatalog[7].folhas == Some(Num(1))
    ensures ProductCatalog[8].folhas == Some(Num(2))
    ensures ProductCatalog[9].folhas == Some(Num(3))
  {
  }

  /** Rows matching exactly the index range `lo..hi` filter down to that slice. */
  lemma {:induction false} ApplyFiltersSlice(s: Selections, c: seq<Product>, lo: nat, hi: nat)
    requires lo <= hi <= |c|
    requires forall i :: 0 <= i < |c| ==> (Matches(s, c[i]) <==> lo <= i < hi)
    ensures ApplyFilters(s, c) == c[lo..hi]
    decreases |c|
  {
    if c != [] {
      var rest := c[1..];
      TailMatches(s, c, lo, hi);
      if lo == 0 && hi > 0 {
        ApplyFiltersSlice(s, rest, 0, hi - 1);
        assert ApplyFilters(s, c) == [c[0]] + ApplyFilters(s, rest);
        SliceCons(c, hi);
      } else if lo == 0 {
        ApplyFiltersSlice(s, rest, 0, 0);
        assert ApplyFilters(s, c) == ApplyFilters(s, rest);
      } else {
        ApplyFiltersSlice(s, rest, lo - 1, hi - 1);
        assert ApplyFilters(s, c) == ApplyFilters(s, rest);
        assert c[lo..hi] == rest[lo - 1..hi - 1];
      }
    }
  }

  /** A prefix is its first element followed by the tail's shorter prefix. */
  lemma SliceCons<T>(c: seq<T>, hi: nat)
    requires 0 < hi <= |c|
    ensures c[0..hi] == [c[0]] + c[1..][0..hi - 1]
  {
    assert c[1..][0..hi - 1] == c[1..hi];
  }

  /** Dropping the first row shifts the matching range down by one. */
  lemma TailMatches(s: Selections, c: seq<Product>, lo: int, hi: int)
    requires c != []
    requires forall i :: 0 <= i < |c| ==> (Matches(s, c[i]) <==> lo <= i < hi)
    ensures forall i :: 0 <= i < |c| - 1 ==> (Matches(s, c[1..][i]) <==> lo - 1 <= i < hi - 1)
  {
    forall i | 0 <= i < |c| - 1 ensures Matches(s, c[1..][i]) <==> lo - 1 <= i < hi - 1 {
      assert c[1..][i] == c[i + 1];
    }
  }

  const JanelaMaximAr: Selections := EmptySelections.(categoria := Some(Str("janela")), sistema := Some(Str("maxim-ar")))

  /** The selections after the engine's two automatic answers for a `maxim-ar` window. */
  const JanelaMaximArFilled: Selections := JanelaMaximAr.(persiana := Some(Str("nao")), material := Some(Str("vidro")))

  const TwoLeaves: Selections := JanelaMaximAr.(folhas := Some(Num(2)))

  const PortaMaximAr: Selections := EmptySelections.(categoria := Some(Str("porta")), sistema := Some(Str("maxim-ar")))

  /** Only the three `maxim-ar` windows survive the filter, however far the window is filled in. */
  lemma MaximArWindows(c: seq<Product>, s: Selections)
    requires ScriptCatalogFacts(c)
    requires s == JanelaMaximAr || s == JanelaMaximAr.(persiana := Some(Str("nao"))) || s == JanelaMaximArFilled
    ensures ApplyFilters(s, c) == c[7..10]
  {
    forall i | 0 <= i < |c| ensures Matches(s, c[i]) <==> 7 <= i < 10 {
      MatchesIff(s, c[i]);
      if !(7 <= i < 10) {
        assert !Agrees(c[i], Sistema, Str("maxim-ar"));
      }
    }
    ApplyFiltersSlice(s, c, 7, 10);
  }

  /** Asking for two leaves leaves the one two-leaf `maxim-ar` window. */
  lemma TwoLeafWindow(c: seq<Product>)
    requires ScriptCatalogFacts(c)
    ensures ApplyFilters(TwoLeaves, c) == c[8..9]
  {
    forall i | 0 <= i < |c| ensures Matches(TwoLeaves, c[i]) <==> 8 <= i < 9 {
      MatchesIff(TwoLeaves, c[i]);
      if !(7 <= i < 10) {
        assert !Agrees(c[i], Sistema, Str("maxim-ar"));
      } else if i != 8 {
        assert !Agrees(c[i], Folhas, Num(2));
      }
    }
    ApplyFiltersSlice(TwoLeaves, c, 8, 9);
  }

  /** No door opens `maxim-ar`. */
  lemma NoMaximArDoor(c: seq<Product>)
    requires ScriptCatalogFacts(c)
    ensures ApplyFilters(PortaMaximAr, c) == []
  {
    forall i | 0 <= i < |c| ensures !Matches(PortaMaximAr, c[i]) {
      MatchesIff(PortaMaximAr, c[i]);
      if i < 10 {
        assert !Agrees(c[i], Categoria, Str("porta"));
      } else {
        assert !Agrees(c[i], Sistema, Str("maxim-ar"));
      }
    }
    ApplyFiltersSlice(PortaMaximAr, c, 0, 0);
  }

  /** With nothing answered the engine asks for the category: window or door. */
  lemma InitialQuestionOn(c: seq<Product>)
    requires ScriptCatalogFacts(c)
    ensures Decide(EmptySelections, c)
      == EngineResult(EmptySelections, false, c,
           Some(Question(Categoria, "O que você procura?", [Str("janela"), Str("porta")])))
  {
    ApplyFiltersEmpty(c);
    var t := [Str("janela"), Str("porta")];
    assert TextValued(Categoria, c) by {
      forall p | p in c && GetProductField(p, Categoria).Some? ensures GetProductField(p, Categoria).value.Str? {
        var i :| 0 <= i < |c| && c[i] == p;
      }
    }
    forall o ensures o in t <==> Offered(Categoria, c, o) {
      if o in t {
        var p := if o == Str("janela") then c[0] else c[10];
        assert GetProductField(p, Categoria) == Some(o);
      }
      if Offered(Categoria, c, o) {
        var p :| p in c && GetProductField(p, Categoria).Some? && o == Coerce(Categoria, GetProductField(p, Categoria).value);
        var i :| 0 <= i < |c| && c[i] == p;
      }
    }
    UniqueOptionsCharacterized(Categoria, c, t);
  }

  /** The blind of every `maxim-ar` window is `'nao'`. */
  lemma MaximArBlindOptions(c: seq<Product>)
    requires ScriptCatalogFacts(c)
    ensures UniqueOptions(Persiana, c[7..10]) == [Str("nao")]
  {
    var rows := c[7..10];
    assert forall p :: p in rows <==> p == c[7] || p == c[8] || p == c[9];
    forall o ensures o in [Str("nao")] <==> Offered(Persiana, rows, o) {
      if o == Str("nao") {
        assert GetProductField(c[7], Persiana) == Some(o);
      }
    }
    UniqueOptionsCharacterized(Persiana, rows, [Str("nao")]);
  }

  /** The material of every `maxim-ar` window is `'vidro'`. */
  lemma MaximArMaterialOptions(c: seq<Product>)
    requires ScriptCatalogFacts(c)
    ensures UniqueOptions(Material, c[7..10]) == [Str("vidro")]
  {
    var rows := c[7..10];
    assert forall p :: p in rows <==> p == c[7] || p == c[8] || p == c[9];
    forall o ensures o in [Str("vidro")] <==> Offered(Material, rows, o) {
      if o == Str("vidro") {
        assert GetProductField(c[7], Material) == Some(o);
      }
    }
    UniqueOptionsCharacterized(Material, rows, [Str("vidro")]);
  }

  /** The `maxim-ar` windows come with 1, 2 and 3 leaves. */
  lemma MaximArLeafOptions(c: seq<Product>)
    requires ScriptCatalogFacts(c)
    ensures UniqueOptions(Folhas, c[7..10]) == [Num(1), Num(2), Num(3)]
  {
    var rows := c[7..10];
    var leaves := [Num(1), Num(2), Num(3)];
    assert forall p :: p in rows <==> p == c[7] || p == c[8] || p == c[9];
    forall o ensures o in leaves <==> Offered(Folhas, rows, o) {
      if o in leaves {
        assert GetProductField(c[7], Folhas) == Some(Num(1));
        assert GetProductField(c[8], Folhas) == Some(Num(2));
        assert GetProductField(c[9], Folhas) == Some(Num(3));
      }
    }
    UniqueOptionsCharacterized(Folhas, rows, leaves);
  }

  /**
   * A `maxim-ar` window: the blind is answered `'nao'` automatically, the
   * motorization is skipped, the material is answered `'vidro'` automatically,
   * and the engine asks for the leaf count with 1, 2 and 3 on offer.
   */
  lemma MaximArWindowOn(c: seq<Product>)
    requires ScriptCatalogFacts(c)
    ensures Decide(JanelaMaximAr, c)
      == EngineResult(JanelaMaximArFilled, false, c[7..10],
           Some(Question(Folhas, "Quantas folhas?", [Num(1), Num(2), Num(3)])))
  {
    BlindStep(c);
    MaterialStep(c);
    LeafQuestionStep(c);
  }

  /** The leaf count is asked once blind and material are filled in. */
  lemma LeafQuestionStep(c: seq<Product>)
    requires ScriptCatalogFacts(c)
    ensures DecideFrom(JanelaMaximArFilled, 5, c)
      == EngineResult(JanelaMaximArFilled, false, c[7..10],
           Some(Question(Folhas, "Quantas folhas?", [Num(1), Num(2), Num(3)])))
  {
    MaximArWindows(c, JanelaMaximArFilled);
    MaximArLeafOptions(c);
  }

  /** Category and system are answered; the blind is filled in as `'nao'`. */
  lemma BlindStep(c: seq<Product>)
    requires ScriptCatalogFacts(c)
    ensures Decide(JanelaMaximAr, c) == DecideFrom(JanelaMaximAr.(persiana := Some(Str("nao"))), 3, c)
  {
    assert Decide(JanelaMaximAr, c) == DecideFrom(JanelaMaximAr, 2, c);
    BlindFilled(c);
  }

  lemma BlindFilled(c: seq<Product>)
    requires ScriptCatalogFacts(c)
    ensures DecideFrom(JanelaMaximAr, 2, c) == DecideFrom(JanelaMaximAr.(persiana := Some(Str("nao"))), 3, c)
  {
    MaximArWindows(c, JanelaMaximAr);
    MaximArBlindOptions(c);
    assert JanelaMaximAr.(persiana := Some(Str("nao"))) == JanelaMaximAr.Set(Persiana, Some(Str("nao")));
  }

  /** The motorization is skipped and the material is filled in as `'vidro'`. */
  lemma MaterialStep(c: seq<Product>)
    requires ScriptCatalogFacts(c)
    ensures DecideFrom(JanelaMaximAr.(persiana := Some(Str("nao"))), 3, c) == DecideFrom(JanelaMaximArFilled, 5, c)
  {
    var ws1 := JanelaMaximAr.(persiana := Some(Str("nao")));
    assert DecideFrom(ws1, 3, c) == DecideFrom(ws1, 4, c);
    MaximArWindows(c, ws1);
    MaximArMaterialOptions(c);
    assert JanelaMaximArFilled == ws1.Set(Material, Some(Str("vidro")));
  }

  /** Answering two leaves on top of that leaves exactly one product. */
  lemma TwoLeavesOn(c: seq<Product>)
    requires ScriptCatalogFacts(c)
    ensures Decide(TwoLeaves, c) == EngineResult(TwoLeaves, true, [c[8]], None)
  {
    TwoLeafWindow(c);
    assert c[8..9] == [c[8]];
  }

  /** A `maxim-ar` door does not exist: the final result is empty. */
  lemma PortaMaximArOn(c: seq<Product>)
    requires ScriptCatalogFacts(c)
    ensures Decide(PortaMaximAr, c) == EngineResult(PortaMaximAr, true, [], None)
  {
    NoMaximArDoor(c);
  }

  /** The runs above, on the catalog of script.js. */
  lemma ScriptCatalogRuns()
    ensures Decide(EmptySelections, ProductCatalog).currentQuestion
      == Some(Question(Categoria, "O que você procura?", [Str("janela"), Str("porta")]))
    ensures Decide(JanelaMaximAr, ProductCatalog)
      == EngineResult(JanelaMaximArFilled, false, ProductCatalog[7..10],
           Some(Question(Folhas, "Quantas folhas?", [Num(1), Num(2), Num(3)])))
    ensures Decide(TwoLeaves, ProductCatalog).finalProduct
    ensures |Decide(TwoLeaves, ProductCatalog).finalProducts| == 1
    ensures Decide(PortaMaximAr, ProductCatalog) == EngineResult(PortaMaximAr, true, [], None)
  {
    ProductCatalogFacts();
    InitialQuestionOn(ProductCatalog);
    MaximArWindowOn(ProductCatalog);
    TwoLeavesOn(ProductCatalog);
    PortaMaximArOn(ProductCatalog);
  }
}
