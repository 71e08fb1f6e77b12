/**
 * The product catalog: one record per window or door variant, with the
 * fields the facets read. The concrete catalog is the 27-row table embedded
 * at the top of script.js; the engine itself takes the catalog as a parameter.
 */
module Catalog {
  import opened Wrappers
  import opened Values

  /** A catalog row; a field the row leaves `null` is `None`. */
  datatype Product = Product(
    slug: string,
    image: string,
    categoria: Option<Value>,
    sistema: Option<Value>,
    persiana: Option<Value>,
    persianaMotorizada: Option<Value>,
    material: Option<Value>,
    folhas: Option<Value>)

  /** `product[name]`; a property the record does not have reads as `None` (undefined). */
  function ProductField(p: Product, name: string): Option<Value>
  {
    match name
    case "slug" => Some(Str(p.slug))
    case "image" => Some(Str(p.image))
    case "categoria" => p.categoria
    case "sistema" => p.sistema
    case "persiana" => p.persiana
    case "persianaMotorizada" => p.persianaMotorizada
    case "material" => p.material
    case "folhas" => p.folhas
    case _ => None
  }

  /** A row as the table writes it: text fields, a nullable motorization, an integer leaf count. */
  function Row(slug: string, image: string, categoria: string, sistema: string, persiana: string,
               motorizada: Option<string>, material: string, folhas: int): Product
  {
    Product(slug, image, Some(Str(categoria)), Some(Str(sistema)), Some(Str(persiana)),
      if motorizada.Some? then Some(Str(motorizada.value)) else None,
      Some(Str(material)), Some(Num(folhas)))
  }

  /** `PRODUCT_CATALOG` as embedded in script.js. */
  const ProductCatalog: seq<Product> := [
      Row("janelasa/janela-de-correr-2-folhas-com-persiana-integrada-motorizada-30.php",
          "janela_correr_persiana-sim_motorizada_2folhas.webp",
          "janela", "janela-correr", "sim", Some("motorizada"), "vidro", 2),
      Row("janelasa/janela-de-correr-2-folhas-com-persiana-integrada-manual-18.php",
          "janela_correr_persiana-sim_manual_2folhas.webp",
          "janela", "janela-correr", "sim", Some("manual"), "vidro", 2),
      Row("janelasa/janela-de-correr-2-folhas-com-vidro-temperado-6mm-6.php",
          "janela_correr_persiana-nao_manual_2folhas.webp",
          "janela", "janela-correr", "nao", None, "vidro", 2),
      Row("janelasa/janela-de-correr-3-folhas-com-vidro-temperado-6mm-37.php",
          "janela_correr_persiana-nao_manual_3folhas.webp",
          "janela", "janela-correr", "nao", None, "vidro", 3),
      Row("janelasa/janela-de-correr-4-folhas-com-vidro-temperado-6mm-14.php",
          "janela_correr_persiana-nao_manual_4folhas.webp",
          "janela", "janela-correr", "nao", None, "vidro", 4),
      Row("janelasa/janela-veneziana-3-folhas-com-vidro-temperado-6mm--17.php",
          "janela_correr_persiana-nao_veneziana_2folhas.webp",
          "janela", "janela-correr", "nao", None, "vidro + veneziana", 3),
      Row("janelasa/janela-de-correr-6-folhas-veneziana-veneziana-vidro.php",
          "janela_correr_persiana-nao_veneziana_6folhas.webp",
          "janela", "janela-correr", "nao", None, "vidro + veneziana", 6),
      Row("janelasa/janela-maxim-ar-com-1-modulo-com-vidro-13.php",
          "janela_maxim-ar_persiana-nao_blank_1folhas.webp",
          "janela", "maxim-ar", "nao", None, "vidro", 1),
      Row("janelasa/janela-maxim-ar-2-modulos-com-vidro-9.php",
          "janela_maxim-ar_persiana-nao_blank_2folhas.webp",
          "janela", "maxim-ar", "nao", None, "vidro", 2),
      Row("janelasa/janela-maxim-ar-com-3-modulos-simetricos-com-vidro-46.php",
          "janela_maxim-ar_persiana-nao_blank_3folhas.webp",
          "janela", "maxim-ar", "nao", None, "vidro", 3),
      Row("portas/porta-de-correr-2-folhas-com-persiana-integrada-motorizada-32.php",
          "porta_correr_persiana-sim_motorizada_2folhas.webp",
          "porta", "porta-correr", "sim", Some("motorizada"), "vidro", 2),
      Row("portas/porta-de-correr-2-folhas-com-persiana-integrada-manual-29.php",
          "porta_correr_persiana-sim_manual_2folhas.webp",
          "porta", "porta-correr", "sim", Some("manual"), "vidro", 2),
      Row("portas/porta-de-correr-2-folhas-com-vidro-temperado-6mm--27.php",
          "porta_correr_persiana-nao_manual_2folhas.webp",
          "porta", "porta-correr", "nao", None, "vidro", 2),
      Row("portas/porta-de-correr-3-folhas-sequenciais-com-vidro-temperado-6mm--33.php",
          "porta_correr_persiana-nao_manual_3folhas.webp",
          "porta", "porta-correr", "nao", None, "vidro", 3),
      Row("portas/porta-de-correr-4-folhas-com-vidro-temperado-6mm-38.php",
          "porta_correr_persiana-nao_blank_4folhas.webp",
          "porta", "porta-correr", "nao", None, "vidro", 4),
      Row("portas/porta-veneziana-de-correr-3-folhas-2-venezianas-e-1-com-vidro-temperado-6mm--31.php",
          "porta_correr_persiana-nao_veneziana_2folhas.webp",
          "porta", "porta-correr", "nao", None, "vidro + veneziana", 3),
      Row("portas/porta-6-folhas-sendo-2-venezianas-cegas-2-venezianas-perfuradas-e-2-com-vidro-temperado-6mm--45.php",
          "porta_correr_persiana-nao_blank_6folhas.webp",
          "porta", "porta-correr", "nao", None, "vidro + veneziana", 6),
      Row("portas/porta-de-giro-1-folha-com-lambris-horizontais-34.php",
          "porta_giro_persiana-nao_lambris_1folhas.webp",
          "porta", "giro", "nao", None, "lambri", 1),
      Row("portas/porta-de-giro-2-folhas-em-lambris-horizontais-40.php",
          "porta_giro_persiana-nao_lambris_2folhas.webp",
          "porta", "giro", "nao", None, "lambri", 2),
      Row("portas/porta-de-giro-1-folha-veneziana-8.php",
          "porta_giro_persiana-nao_veneziana_1folhas.webp",
          "porta", "giro", "nao", None, "veneziana", 1),
      Row("portas/porta-de-giro-2-folhas-veneziana-20.php",
          "porta_giro_persiana-nao_veneziana_2folhas.webp",
          "porta", "giro", "nao", None, "veneziana", 2),
      Row("portas/porta-de-giro-1-folha-com-vidro-temperado-6mm-10.php",
          "porta_giro_persiana-nao_blank_1folhas.webp",
          "porta", "giro", "nao", None, "vidro", 1),
      Row("portas/porta-de-giro-2-folhas-com-vidro-temperado-6mm-23.php",
          "porta_giro_persiana-nao_blank_2folhas.webp",
          "porta", "giro", "nao", None, "vidro", 2),
      Row("portas/porta-de-giro-metade-lambris-horizontais-e-metade-com-vidro-temperado-6mm-1-folha-36.php",
          "porta_giro_persiana-nao_metade-lambris_1folhas.webp",
          "porta", "giro", "nao", None, "vidro + lambri", 1),
      Row("portas/porta-de-giro-2-folhas-metade-em-lambris-horizontais-e-metade-com-vidro-temperado-6mm--39.php",
          "porta_giro_persiana-nao_metade-lambris_2folhas.webp",
          "porta", "giro", "nao", None, "vidro + lambri", 2),
      Row("portas/porta-de-giro-metade-veneziana-e-metade-vidro-temperado-6mm--11.php",
          "porta_giro_persiana-nao_metade-veneziana_1folhas.webp",
          "porta", "giro", "nao", None, "vidro + veneziana", 1),
      Row("portas/porta-de-giro-2-folhas-metade-veneziana-e-metade-com-vidro-temperado-6mm-22.php",
          "porta_giro_persiana-nao_metade-veneziana_2folhas.webp",
          "porta", "giro", "nao", None, "vidro + veneziana", 2)
    ]

  /** The catalog has 27 rows and no two share a slug. */
  lemma CatalogSlugsAreDistinct()
    ensures |ProductCatalog| == 27
    ensures forall i, j :: 0 <= i < j < |ProductCatalog| ==> ProductCatalog[i].slug != ProductCatalog[j].slug
  {
    WindowSlugsAreDistinct();
    DoorSlugsAreDistinct();
  }

  /** The ten window rows have slugs of their own. */
  lemma WindowSlugsAreDistinct()
    ensures forall i, j :: 0 <= i < 10 && i < j < |ProductCatalog| ==> ProductCatalog[i].slug != ProductCatalog[j].slug
  {
    FirstWindowSlugsAreDistinct();
  }

  /** The first five window rows have slugs of their own. */
  lemma FirstWindowSlugsAreDistinct()
    ensures forall i, j :: 0 <= i < 5 && i < j < |ProductCatalog| ==> ProductCatalog[i].slug != ProductCatalog[j].slug
  {
  }

  /** The door rows have distinct slugs. */
  lemma DoorSlugsAreDistinct()
    ensures forall i, j :: 10 <= i < j < |ProductCatalog| ==> ProductCatalog[i].slug != ProductCatalog[j].slug
  {
  }

  /** `persiana` is `'sim'` or `'nao'`; a blind comes with a motorization, no blind with none. */
  predicate BlindShape(p: Product)
  {
    && (p.persiana == Some(Str("sim")) || p.persiana == Some(Str("nao")))
    && (p.persiana == Some(Str("sim")) ==> p.persianaMotorizada.Some?)
    && (p.persiana == Some(Str("nao")) ==> p.persianaMotorizada.None?)
  }

  /** The leaf count is an integer in {1, 2, 3, 4, 6}; every other mapped field is text. */
  predicate FieldTypes(p: Product)
  {
    && p.folhas.Some? && p.folhas.value.Num? && p.folhas.value.n in {1, 2, 3, 4, 6}
    && p.categoria.Some? && p.categoria.value.Str?
    && p.sistema.Some? && p.sistema.value.Str?
    && p.persiana.Some? && p.persiana.value.Str?
    && p.material.Some? && p.material.value.Str?
    && (p.persianaMotorizada.Some? ==> p.persianaMotorizada.value.Str?)
  }

  /** Rows with a blind name a motorization; rows without one leave it null. */
  lemma CatalogMotorizationFollowsBlind()
    ensures forall p :: p in ProductCatalog ==> BlindShape(p)
  {
    forall i | 0 <= i < |ProductCatalog| ensures BlindShape(ProductCatalog[i]) {
    }
  }

  /** Every row has the field types above. */
  lemma CatalogFieldTypes()
    ensures forall p :: p in ProductCatalog ==> FieldTypes(p)
  {
    forall i | 0 <= i < |ProductCatalog| ensures FieldTypes(ProductCatalog[i]) {
      if i < 9 { FieldTypesOfFirstRows(i); } else if i < 18 { FieldTypesOfMiddleRows(i); } else { FieldTypesOfLastRows(i); }
    }
  }

  lemma FieldTypesOfFirstRows(i: int)
    requires 0 <= i < 9
    ensures FieldTypes(ProductCatalog[i])
  {
  }

  lemma FieldTypesOfMiddleRows(i: int)
    requires 9 <= i < 18
    ensures FieldTypes(ProductCatalog[i])
  {
  }

  lemma FieldTypesOfLastRows(i: int)
    requires 18 <= i < 27
    ensures FieldTypes(ProductCatalog[i])
  {
  }
}
