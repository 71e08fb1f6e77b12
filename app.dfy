/**
 * The application's session state: one selections object that the handlers
 * replace (an answer, a breadcrumb "jump back", a restart), each handler then
 * running the engine for the view. The same handlers appear in scripts/app.js
 * and, with the breadcrumb position fixed to the facet's own, in script.js.
 */
module App {
  import opened Wrappers
  import opened Values
  import opened Constants
  import opened Catalog
  import opened Logic

  /** The breadcrumb reset: `f` and every facet after position `index` cleared, the rest kept. */
  function BreadcrumbReset(s: Selections, f: Facet, index: nat): Selections
  {
    Tabulate(g => if g == f || index < Ordinal(g) then None else s.Get(g))
  }

  /**
   * A jump back clears `f` and everything after position `index`, keeps the
   * answers before it, and only ever removes answers, so it keeps the
   * dependency rule although it does not re-run it.
   */
  lemma BreadcrumbResetSpec(s: Selections, f: Facet, index: nat)
    ensures var r := BreadcrumbReset(s, f, index);
      && r.Get(f).None?
      && (forall g :: index < Ordinal(g) ==> r.Get(g).None?)
      && (forall g :: g != f && Ordinal(g) <= index ==> r.Get(g) == s.Get(g))
      && Extends(r, s)
      && (MotorRuleHolds(s) ==> MotorRuleHolds(r))
  {
  }

  /**
   * A breadcrumb chip sits at its facet's own position, and then clicking it
   * is the same as answering that facet with null.
   */
  lemma ChipClickIsTransition(s: Selections, f: Facet)
    requires MotorRuleHolds(s)
    ensures BreadcrumbReset(s, f, Ordinal(f)) == NextSelections(s, f, None)
  {
    var r := BreadcrumbReset(s, f, Ordinal(f));
    var n := NextSelections(s, f, None);
    NextSelectionsSpec(s, f, None);
    forall g ensures r.Get(g) == n.Get(g) {
      if g == Motorizada && Ordinal(g) < Ordinal(f) && ForcesMotorOff(s.persiana) {
        assert s.motorizada.None?;
      }
    }
    SelectionsExt(r, n);
  }

  /** The module-level state of scripts/app.js and the handlers that replace it. */
  class Session {
    /** The catalog the engine filters (the imported `PRODUCT_CATALOG`). */
    const catalog: seq<Product>
    var currentSelections: Selections

    /** The state obeys the dependency rule between blind and motorization. */
    ghost predicate Valid()
      reads this
    {
      MotorRuleHolds(currentSelections)
    }

    /** Start-up: every facet unanswered. */
    constructor(catalog: seq<Product>)
      ensures this.catalog == catalog
      ensures currentSelections == EmptySelections
      ensures Valid()
    {
      this.catalog := catalog;
      currentSelections := EmptySelections;
    }

    /** `handleSelection(facet, value)`: apply the transition, then refresh the view. */
    method HandleSelection(facet: Facet, value: Value) returns (view: EngineResult)
      modifies this
      ensures currentSelections == NextSelections(old(currentSelections), facet, Some(value))
      ensures view == Decide(currentSelections, catalog)
      ensures Valid()
    {
      currentSelections := CalculateNextSelections(currentSelections, facet, Some(value));
      NextSelectionsSpec(old(currentSelections), facet, Some(value));
      view := UpdateUI();
    }

    /** `handleBreadcrumbClick(facet, index)`: clear a copy in a loop, store it, refresh the view. */
    method HandleBreadcrumbClick(facet: Facet, index: nat) returns (view: EngineResult)
      requires Valid()
      modifies this
      ensures currentSelections == BreadcrumbReset(old(currentSelections), facet, index)
      ensures view == Decide(currentSelections, catalog)
      ensures Valid()
    {
      var next := currentSelections.Set(facet, None);
      var i := index + 1;
      while i < |FacetOrder|
        invariant forall g :: next.Get(g) == (if g == facet || index < Ordinal(g) < i then None else currentSelections.Get(g))
        decreases |FacetOrder| - i
      {
        next := next.Set(FacetOrder[i], None);
        i := i + 1;
      }
      SelectionsExt(next, BreadcrumbReset(currentSelections, facet, index));
      BreadcrumbResetSpec(currentSelections, facet, index);
      currentSelections := next;
      view := UpdateUI();
    }

    /** `handleRestart()`: every facet back to unanswered, then refresh the view. */
    method HandleRestart() returns (view: EngineResult)
      modifies this
      ensures currentSelections == EmptySelections
      ensures view == Decide(EmptySelections, catalog)
      ensures Valid()
    {
      currentSelections := EmptySelections;
      view := UpdateUI();
    }

    /**
     * `updateUI()`: runs the engine on the current state and hands the result
     * to the view; answers the engine fills in are not stored back.
     */
    method UpdateUI() returns (view: EngineResult)
      ensures view == Decide(currentSelections, catalog)
    {
      view := RunFacetLoop(currentSelections, catalog);
    }
  }
}
