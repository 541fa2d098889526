/** The decisions inside the income voucher (comprobante de ingreso) of
    src/lib/pdf/ingresoPdf.js: the image format chosen for the logo, the
    placeholders and zero defaults of the three tables, the amount-in-words
    line, the optional observations block and the ANULADO watermark. */
module Ingreso {
  import opened JsRuntime
  import opened Format

  // ---------------------------------------------------------------------
  // guessFormatForJsPDF

  /** "JPEG" when the lower-cased path ends in ".jpg" or ".jpeg", "PNG" for
      anything else. */
  function GuessFormat(path: string): (r: string)
    ensures r == "JPEG" || r == "PNG"
  {
    var p := ToLower(path);
    if EndsWith(p, ".jpg") || EndsWith(p, ".jpeg") then "JPEG" else "PNG"
  }

  /** Called without a path, the function takes its default "" and answers PNG. */
  function GuessFormatNoPath(): (r: string)
    ensures r == "PNG"
  {
    GuessFormat("")
  }

  /** Lower-casing a character twice is lower-casing it once, and lower-casing
      an upper-cased character is lower-casing it. */
  lemma LowerCharFacts(c: char)
    ensures LowerChar(LowerChar(c)) == LowerChar(c)
    ensures LowerChar(UpperChar(c)) == LowerChar(c)
  {
  }

  lemma ToLowerIdempotent(s: string)
    ensures ToLower(ToLower(s)) == ToLower(s)
  {
    forall i | 0 <= i < |s|
      ensures ToLower(ToLower(s))[i] == ToLower(s)[i]
    {
      LowerCharFacts(s[i]);
    }
  }

  lemma ToLowerOfUpper(s: string)
    ensures ToLower(ToUpper(s)) == ToLower(s)
  {
    forall i | 0 <= i < |s|
      ensures ToLower(ToUpper(s))[i] == ToLower(s)[i]
    {
      LowerCharFacts(s[i]);
    }
  }

  /** The guess ignores letter case: a path, its lower-case and its
      upper-case spelling get the same format. */
  lemma GuessFormatIgnoresCase(path: string)
    ensures GuessFormat(ToLower(path)) == GuessFormat(path)
    ensures GuessFormat(ToUpper(path)) == GuessFormat(path)
  {
    ToLowerIdempotent(path);
    ToLowerOfUpper(path);
  }

  /** Only the extension matters: the last four (or five) characters,
      compared without regard to case. */
  lemma GuessFormatByExtension(path: string)
    ensures GuessFormat(path) == "JPEG" <==>
      (|path| >= 4 && ToLower(path[|path| - 4..]) == ".jpg")
      || (|path| >= 5 && ToLower(path[|path| - 5..]) == ".jpeg")
  {
    var p := ToLower(path);
    if |path| >= 4 {
      assert p[|p| - 4..] == ToLower(path[|path| - 4..]);
    }
    if |path| >= 5 {
      assert p[|p| - 5..] == ToLower(path[|path| - 5..]);
    }
  }

  /** Upper-case extensions count. */
  lemma GuessFormatUpperCase()
    ensures GuessFormat("LOGO.JPEG") == "JPEG"
  {
    assert ToLower("LOGO.JPEG") == "logo.jpeg";
  }

  lemma GuessFormatJpg()
    ensures GuessFormat("/images/logo.jpg") == "JPEG"
  {
    assert ToLower("/images/logo.jpg") == "/images/logo.jpg";
  }

  /** Any other extension is PNG, and only the last extension is looked at. */
  lemma GuessFormatPng()
    ensures GuessFormat("/images/logo.png") == "PNG"
    ensures GuessFormat("logo.jpg.png") == "PNG"
  {
    assert ToLower("/images/logo.png") == "/images/logo.png";
    assert ToLower("logo.jpg.png") == "logo.jpg.png";
  }

  // ---------------------------------------------------------------------
  // buildIngresoPdf

  /** An income record as the voucher reads it: missing text fields are
      the empty string, missing numbers are None. */
  datatype Ingreso = Ingreso(
    consecutivo: nat,
    entidadNombre: string,
    entidadNit: string,
    convenio: string,
    concepto: string,
    medioPago: string,
    banco: string,
    cuenta: string,
    valorTotal: Option<Ratio>,
    impuestoPct: Option<Ratio>,
    impuestoValor: Option<Ratio>,
    valorConsignado: Option<Ratio>,
    observaciones: Option<string>,
    anulado: JsValue)

  /** A table cell: text, an amount shown through fmtMoney, or the tax
      label `Impuesto (<pct>%)`. */
  datatype Cell = Text(text: string) | Money(amount: Ratio) | TaxLabel(pct: Ratio)

  /** What the page shows, block by block. */
  datatype IngresoPdf = IngresoPdf(
    numero: nat,
    entidad: seq<(string, string)>,
    concepto: seq<(string, string)>,
    totales: seq<(Cell, Cell)>,
    enLetras: string,
    observaciones: Option<string>,
    marcaAnulado: bool)

  /** `v || 0` (and fmtMoney's `n ?? 0`) on a number that may be missing. */
  function OrZero(v: Option<Ratio>): (r: Ratio)
    ensures v == None ==> r == FromInt(0)
    ensures v != None ==> r == v.value
  {
    match v
    case None => FromInt(0)
    case Some(x) => x
  }

  /** Entity, NIT and agreement: each shows its field, or "-" when it is
      missing, so no value is ever blank. */
  function EntidadPanel(ing: Ingreso): (r: seq<(string, string)>)
    ensures |r| == 3
    ensures forall k :: 0 <= k < 3 ==> r[k].1 != ""
    ensures ing.entidadNombre != "" ==> r[0].1 == ing.entidadNombre
    ensures ing.entidadNombre == "" ==> r[0].1 == "-"
    ensures ing.entidadNit != "" ==> r[1].1 == ing.entidadNit
    ensures ing.entidadNit == "" ==> r[1].1 == "-"
    ensures ing.convenio != "" ==> r[2].1 == ing.convenio
    ensures ing.convenio == "" ==> r[2].1 == "-"
  {
    [("Entidad que transfiere", OrDefault(ing.entidadNombre, "-")),
     ("NIT / Cédula", OrDefault(ing.entidadNit, "-")),
     ("Convenio", OrDefault(ing.convenio, "-"))]
  }

  /** Concept, payment method and bank / account: no value is ever blank,
      and the bank line shows both halves even when both are missing. */
  function ConceptoPanel(ing: Ingreso): (r: seq<(string, string)>)
    ensures |r| == 3
    ensures forall k :: 0 <= k < 3 ==> r[k].1 != ""
    ensures ing.concepto != "" ==> r[0].1 == ing.concepto
    ensures ing.concepto == "" ==> r[0].1 == "-"
    ensures ing.medioPago != "" ==> r[1].1 == ing.medioPago
    ensures ing.medioPago == "" ==> r[1].1 == "-"
    ensures r[2].1 == OrDefault(ing.banco, "-") + " / " + OrDefault(ing.cuenta, "-")
    ensures ing.banco == "" && ing.cuenta == "" ==> r[2].1 == "- / -"
  {
    [("Concepto", OrDefault(ing.concepto, "-")),
     ("Medio de pago", OrDefault(ing.medioPago, "-")),
     ("Banco / Cuenta", OrDefault(ing.banco, "-") + " / " + OrDefault(ing.cuenta, "-"))]
  }

  /** Total charged, tax and deposited amount: a present number prints as
      itself, a missing one as 0. */
  function Totales(ing: Ingreso): (r: seq<(Cell, Cell)>)
    ensures |r| == 3
    ensures r[0].0 == Text("Valor total cobrado") && r[2].0 == Text("Valor consignado")
    ensures ing.valorTotal != None ==> r[0].1 == Money(ing.valorTotal.value)
    ensures ing.valorTotal == None ==> r[0].1 == Money(FromInt(0))
    ensures ing.impuestoPct != None ==> r[1].0 == TaxLabel(ing.impuestoPct.value)
    ensures ing.impuestoPct == None ==> r[1].0 == TaxLabel(FromInt(0))
    ensures ing.impuestoValor != None ==> r[1].1 == Money(ing.impuestoValor.value)
    ensures ing.impuestoValor == None ==> r[1].1 == Money(FromInt(0))
    ensures ing.valorConsignado != None ==> r[2].1 == Money(ing.valorConsignado.value)
    ensures ing.valorConsignado == None ==> r[2].1 == Money(FromInt(0))
  {
    [(Text("Valor total cobrado"), Money(OrZero(ing.valorTotal))),
     (TaxLabel(OrZero(ing.impuestoPct)), Money(OrZero(ing.impuestoValor))),
     (Text("Valor consignado"), Money(OrZero(ing.valorConsignado)))]
  }

  /** The words line spells the deposited amount (valorConsignado), 0 when missing. */
  function EnLetras(ing: Ingreso): (r: string)
    ensures ing.valorConsignado == None ==> r == "VALOR CONSIGNADO EN LETRAS: cero pesos"
    ensures ing.valorConsignado != None ==>
      r == "VALOR CONSIGNADO EN LETRAS: " + AmountInWords(Round(ing.valorConsignado.value))
  {
    assert Round(FromInt(0)) == 0;
    "VALOR CONSIGNADO EN LETRAS: " + AmountInWords(Round(OrZero(ing.valorConsignado)))
  }

  /** The observations block, drawn only when `observaciones?.trim()` is
      truthy; it shows the text as given, untrimmed. */
  function Observaciones(ing: Ingreso): (r: Option<string>)
    ensures r != None <==> ing.observaciones != None && !IsBlank(ing.observaciones.value)
    ensures r != None ==> r == ing.observaciones
  {
    match ing.observaciones
    case None => None
    case Some(o) => if Trim(o) != "" then Some(o) else None
  }

  /** The watermark is drawn only when `anulado === true`. */
  function MarcaAnulado(ing: Ingreso): (r: bool)
    ensures r <==> ing.anulado == Bool(true)
  {
    IsStrictTrue(ing.anulado)
  }

  /** The page: the words line spells the same deposited amount that the
      totals table shows, rounded, and the watermark follows `anulado`. */
  function BuildIngresoPdf(ing: Ingreso): (r: IngresoPdf)
    ensures r.numero == ing.consecutivo
    ensures r.entidad == EntidadPanel(ing) && r.concepto == ConceptoPanel(ing)
    ensures r.totales == Totales(ing) && r.enLetras == EnLetras(ing)
    ensures r.observaciones == Observaciones(ing)
    ensures |r.totales| == 3 && r.totales[2].1.Money?
    ensures r.enLetras == "VALOR CONSIGNADO EN LETRAS: " + AmountInWords(Round(r.totales[2].1.amount))
    ensures r.marcaAnulado <==> ing.anulado == Bool(true)
  {
    IngresoPdf(ing.consecutivo, EntidadPanel(ing), ConceptoPanel(ing), Totales(ing),
      EnLetras(ing), Observaciones(ing), MarcaAnulado(ing))
  }

  /** The observations block appears exactly when there are observations
      that are not all whitespace, and then shows them unchanged. */
  lemma ObservacionesIffNotBlank(ing: Ingreso)
    ensures BuildIngresoPdf(ing).observaciones != None <==>
      ing.observaciones != None && !IsBlank(ing.observaciones.value)
    ensures BuildIngresoPdf(ing).observaciones != None ==>
      BuildIngresoPdf(ing).observaciones == ing.observaciones
  {
  }

  lemma ObservacionesExamples(ing: Ingreso)
    ensures ing.observaciones == Some(" \t\n") ==> Observaciones(ing) == None
    ensures ing.observaciones == Some("") ==> Observaciones(ing) == None
    ensures ing.observaciones == Some(" pago parcial ") ==> Observaciones(ing) == Some(" pago parcial ")
  {
    assert IsBlank(" \t\n");
    assert !IsSpace(" pago parcial "[1]);
  }

  /** Missing amounts print as zero, and the words line then reads "cero pesos". */
  lemma MissingAmountsAreZero(ing: Ingreso)
    requires ing.valorTotal == None && ing.impuestoPct == None
    requires ing.impuestoValor == None && ing.valorConsignado == None
    ensures BuildIngresoPdf(ing).totales ==
      [(Text("Valor total cobrado"), Money(FromInt(0))),
       (TaxLabel(FromInt(0)), Money(FromInt(0))),
       (Text("Valor consignado"), Money(FromInt(0)))]
    ensures BuildIngresoPdf(ing).enLetras == "VALOR CONSIGNADO EN LETRAS: cero pesos"
  {
    assert Round(FromInt(0)) == 0;
  }

  /** The words line follows the deposited amount, not the total charged:
      two records that differ only in valorTotal get the same line. */
  lemma EnLetrasIgnoresTotal(a: Ingreso, b: Ingreso)
    requires a.valorConsignado == b.valorConsignado
    ensures EnLetras(a) == EnLetras(b)
    ensures a.valorConsignado.Some? ==>
      EnLetras(a) == "VALOR CONSIGNADO EN LETRAS: " + AmountInWords(Round(a.valorConsignado.value))
  {
  }

  /** The watermark follows `anulado === true` strictly. */
  lemma WatermarkStrict(ing: Ingreso)
    ensures BuildIngresoPdf(ing).marcaAnulado <==> ing.anulado == Bool(true)
    ensures ing.anulado == Str("true") ==> Truthy(ing.anulado) && !BuildIngresoPdf(ing).marcaAnulado
    ensures ing.anulado == Number(FromInt(1)) ==> Truthy(ing.anulado) && !BuildIngresoPdf(ing).marcaAnulado
  {
  }
}
