/**
 * The static facet schema of the configurator: the six questions in their
 * fixed order, the facet-to-product-field table and, per facet, the question
 * title and the table of display labels (keyed, as JavaScript object keys
 * always are, by the text of the value).
 */
module Constants {
  import opened Values

  datatype Facet = Categoria | Sistema | Persiana | Motorizada | Material | Folhas

  /** The order in which facets are asked and in which later answers are cleared. */
  const FacetOrder: seq<Facet> := [Categoria, Sistema, Persiana, Motorizada, Material, Folhas]

  /** The value of `persiana` that makes `motorizada` applicable. */
  const TriggerValue: string := "sim"

  /** `FACET_ORDER.indexOf(f)`. */
  function Ordinal(f: Facet): (i: nat)
    ensures i < |FacetOrder| && FacetOrder[i] == f
  {
    match f
    case Categoria => 0
    case Sistema => 1
    case Persiana => 2
    case Motorizada => 3
    case Material => 4
    case Folhas => 5
  }

  /** The facet's key in the selections object. */
  function FacetName(f: Facet): string
  {
    match f
    case Categoria => "categoria"
    case Sistema => "sistema"
    case Persiana => "persiana"
    case Motorizada => "motorizada"
    case Material => "material"
    case Folhas => "folhas"
  }

  /** `FIELD_MAP`: the product field a facet reads. */
  function FieldMap(f: Facet): string
  {
    match f
    case Categoria => "categoria"
    case Sistema => "sistema"
    case Persiana => "persiana"
    case Motorizada => "persianaMotorizada"
    case Material => "material"
    case Folhas => "folhas"
  }

  datatype FacetDefinition = FacetDefinition(title: string, labelMap: map<string, string>)

  /** The `title` and `labelMap` parts of `FACET_DEFINITIONS`. */
  function FacetDefinitions(f: Facet): FacetDefinition
  {
    match f
    case Categoria => FacetDefinition("O que você procura?", map["janela" := "Janela", "porta" := "Porta"])
    case Sistema => FacetDefinition("Qual sistema de abertura?",
      map["janela-correr" := "De Correr", "porta-correr" := "De Correr", "maxim-ar" := "Maxim-ar", "giro" := "De Giro"])
    case Persiana => FacetDefinition("Precisa de persiana integrada?", map["sim" := "Com Persiana", "nao" := "Sem Persiana"])
    case Motorizada => FacetDefinition("Persiana motorizada ou manual?", map["motorizada" := "Motorizada", "manual" := "Manual"])
    case Material => FacetDefinition("Qual material de preenchimento?",
      map["vidro" := "Vidro", "vidro + veneziana" := "Vidro + Veneziana", "lambri" := "Lambri",
          "veneziana" := "Veneziana", "vidro + lambri" := "Vidro + Lambri"])
    case Folhas => FacetDefinition("Quantas folhas?",
      map["1" := "1 Folha", "2" := "2 Folhas", "3" := "3 Folhas", "4" := "4 Folhas", "6" := "6 Folhas"])
  }

  /** `Title(f)` is the question asked for `f`. */
  function Title(f: Facet): string
  {
    FacetDefinitions(f).title
  }

  /** Six distinct facets, every facet listed, in the fixed order. */
  lemma FacetOrderIsFixed()
    ensures |FacetOrder| == 6
    ensures forall i, j :: 0 <= i < j < |FacetOrder| ==> FacetOrder[i] != FacetOrder[j]
    ensures forall f: Facet :: f in FacetOrder
    ensures FacetOrder[0] == Categoria && FacetOrder[1] == Sistema && FacetOrder[2] == Persiana
    ensures FacetOrder[3] == Motorizada && FacetOrder[4] == Material && FacetOrder[5] == Folhas
  {
    forall f: Facet ensures f in FacetOrder {
      assert FacetOrder[Ordinal(f)] == f;
    }
  }

  /** `indexOf` and indexing are inverse to each other. */
  lemma OrdinalIsIndexOf()
    ensures forall i :: 0 <= i < |FacetOrder| ==> Ordinal(FacetOrder[i]) == i
    ensures forall f, g :: Ordinal(f) == Ordinal(g) ==> f == g
  {
  }

  /** Every facet has a definition with a non-empty title and a non-empty label table. */
  lemma DefinitionsAreComplete()
    ensures forall f :: Title(f) != "" && |FacetDefinitions(f).labelMap| > 0
  {
    forall f ensures Title(f) != "" && |FacetDefinitions(f).labelMap| > 0 {
      var m := FacetDefinitions(f).labelMap;
      match f
      case Categoria => assert "janela" in m;
      case Sistema => assert "giro" in m;
      case Persiana => assert "sim" in m;
      case Motorizada => assert "manual" in m;
      case Material => assert "vidro" in m;
      case Folhas => assert "1" in m;
    }
  }

  /** `FIELD_MAP` is injective, and the identity on facet names except for `motorizada`. */
  lemma FieldMapShape()
    ensures forall f, g :: FieldMap(f) == FieldMap(g) ==> f == g
    ensures forall f :: FieldMap(f) == FacetName(f) <==> f != Motorizada
    ensures FieldMap(Motorizada) == "persianaMotorizada"
  {
  }

  /** `persiana` is labelled for exactly `'sim'` and `'nao'`, and `'sim'` is the trigger value. */
  lemma PersianaLabels()
    ensures FacetDefinitions(Persiana).labelMap.Keys == {"sim", "nao"}
    ensures TriggerValue in FacetDefinitions(Persiana).labelMap
  {
  }

  /** `folhas` is labelled for the integers 1, 2, 3, 4 and 6 (as property keys, their text). */
  lemma FolhasLabels()
    ensures FacetDefinitions(Folhas).labelMap.Keys
      == {Render(Num(1)), Render(Num(2)), Render(Num(3)), Render(Num(4)), Render(Num(6))}
  {
  }
}
