/** The values behind the expense voucher (comprobante de egreso) of
    src/lib/pdf_egreso.js: gross, retention and net amounts, the payment
    account text, the agreement (convenio) label, the four-row ledger
    table, the amount-in-words line, the ANULADO watermark gate and the
    storage key the PDF is uploaded under. The drawing itself is not
    modelled: a voucher is the record of what the page shows. */
module Egreso {
  import opened JsRuntime
  import opened Format

  /** A row of the egresos table, as far as the voucher reads it. A missing
      numeric field is None; a missing text field is the empty string. */
  datatype Egreso = Egreso(
    consecutivo: nat,
    convenio: Option<string>,
    cantidad: Option<int>,
    valorUnitario: Option<int>,
    retencion: Option<Ratio>,
    codRetencion: string,
    medioPago: string,
    concepto: string,
    descripcion: string,
    anulado: JsValue)

  /** A row of the providers table; a missing provider has every field empty. */
  datatype Prestador = Prestador(
    nombres: string,
    apellidos: string,
    cedula: string,
    telefono: string,
    banco: string,
    tipoCuenta: string,
    numeroCuenta: string)

  /** One of the known agreements. */
  datatype Convenio = Convenio(codigo: string, nombre: string)

  const Convenios: seq<Convenio> := [
    Convenio("2975-2024", "Ministerio de Cultura"),
    Convenio("2019-2023", "Ministerio de las Culturas, Artes y Saberes")
  ]

  // ---------------------------------------------------------------------
  // Amounts

  /** `Number(field || 0)` on an integer field. */
  function NumberOrZero(v: Option<int>): (r: int)
    ensures v == None ==> r == 0
    ensures v != None ==> r == v.value
  {
    match v
    case None => 0
    case Some(x) => x
  }

  /** `Number(egreso.retencion || 0)`: the retention percentage. */
  function RetencionPct(e: Egreso): (r: Ratio)
    ensures e.retencion == None ==> r.num == 0
    ensures e.retencion != None ==> r == e.retencion.value
  {
    match e.retencion
    case None => FromInt(0)
    case Some(p) => p
  }

  /** valorBruto: quantity times unit value, a missing factor counting as 0. */
  function Gross(e: Egreso): (r: int)
    ensures e.cantidad == None || e.valorUnitario == None ==> r == 0
    ensures e.cantidad != None && e.valorUnitario != None ==> r == e.cantidad.value * e.valorUnitario.value
  {
    NumberOrZero(e.cantidad) * NumberOrZero(e.valorUnitario)
  }

  /** valorRetencion: Math.round(pct / 100 * gross), rounded once, halves up.
      The result is the integer nearest to pct * gross / 100. */
  function Retention(e: Egreso): (r: int)
    ensures var p := RetencionPct(e);
      (2 * r - 1) * (100 * p.den) <= 2 * (p.num * Gross(e)) < (2 * r + 1) * (100 * p.den)
  {
    var p := RetencionPct(e);
    Round(Ratio(p.num * Gross(e), 100 * p.den))
  }

  /** valorNeto: what is paid out, gross less retention. */
  function Net(e: Egreso): (r: int)
    ensures r + Retention(e) == Gross(e)
  {
    Gross(e) - Retention(e)
  }

  /** With a percentage between 0 and 100 and a non-negative gross, the
      retention and the net both lie between 0 and the gross. */
  lemma RetentionBounds(e: Egreso)
    requires 0 <= RetencionPct(e).num <= 100 * RetencionPct(e).den
    requires Gross(e) >= 0
    ensures 0 <= Retention(e) <= Gross(e)
    ensures 0 <= Net(e) <= Gross(e)
  {
    var p := RetencionPct(e);
    NearestBounds(p.num, p.den, Gross(e), Retention(e));
  }

  /** The integer nearest to num * g / (100 * den) lies in [0, g] when
      0 <= num / den <= 100 and g >= 0. */
  lemma NearestBounds(num: int, den: Pos, g: int, r: int)
    requires 0 <= num <= 100 * den && g >= 0
    requires (2 * r - 1) * (100 * den) <= 2 * (num * g) < (2 * r + 1) * (100 * den)
    ensures 0 <= r <= g
  {
    var d := 100 * den;
    MulNonNeg(num, g);
    MulMonotone(num, d, g);
    assert num * g <= d * g;
    // (2r + 1) d > 2 num g >= 0, so 2r + 1 > 0.
    PositiveFactor(2 * r + 1, d);
    // (2r - 1) d <= 2 num g <= 2 g d, so 2r - 1 <= 2g.
    assert (2 * r - 1) * d <= (2 * g) * d;
    FactorBound(2 * r - 1, 2 * g, d);
  }

  lemma MulMonotone(a: int, b: int, c: nat)
    requires a <= b
    ensures a * c <= b * c
  {
    MulNonNeg(b - a, c);
  }

  lemma PositiveFactor(x: int, d: Pos)
    ensures x * d > 0 ==> x > 0
  {
    if x <= 0 {
      MulNonNeg(-x, d);
    }
  }

  lemma FactorBound(x: int, y: int, d: Pos)
    ensures x * d <= y * d ==> x <= y
  {
    MulAwayFromZero(x - y, d);
  }

  /** Ten units of 100000 at 2.5%: gross 1000000, retention 25000, net 975000. */
  lemma ExampleTwoAndAHalfPercent(e: Egreso)
    requires e.cantidad == Some(10) && e.valorUnitario == Some(100000)
    requires e.retencion == Some(Ratio(5, 2))
    ensures Gross(e) == 1000000 && Retention(e) == 25000 && Net(e) == 975000
  {
  }

  /** Half a peso of retention rounds up: 1% of 50 retains 1 and pays 49. */
  lemma ExampleHalfRoundsUp(e: Egreso)
    requires e.cantidad == Some(1) && e.valorUnitario == Some(50)
    requires e.retencion == Some(FromInt(1))
    ensures Retention(e) == 1 && Net(e) == 49
  {
  }

  // ---------------------------------------------------------------------
  // Texts

  /** The payment-account text: bank, account type and number separated by
      middle dots, each "-" when missing, for a transfer; "EFECTIVO" for
      any other payment method. */
  function CuentaTxt(e: Egreso, p: Prestador): (r: string)
    ensures e.medioPago != "transferencia" ==> r == "EFECTIVO"
    ensures e.medioPago == "transferencia" ==> |r| >= 9
  {
    if e.medioPago == "transferencia" then
      OrDefault(p.banco, "-") + " · " + OrDefault(p.tipoCuenta, "-") + " · " + OrDefault(p.numeroCuenta, "-")
    else "EFECTIVO"
  }

  /** The account text is "EFECTIVO" exactly when the payment is not a transfer. */
  lemma CuentaTxtIsCashUnlessTransfer(e: Egreso, p: Prestador)
    ensures CuentaTxt(e, p) == "EFECTIVO" <==> e.medioPago != "transferencia"
  {
    if e.medioPago == "transferencia" {
      assert |CuentaTxt(e, p)| >= 9;
    }
  }

  /** For a transfer, the three parts appear in order, separated by " · ",
      with "-" standing in for each missing part. */
  lemma CuentaTxtParts(e: Egreso, p: Prestador)
    requires e.medioPago == "transferencia"
    ensures var banco, tipo, numero := OrDefault(p.banco, "-"), OrDefault(p.tipoCuenta, "-"), OrDefault(p.numeroCuenta, "-");
      && |CuentaTxt(e, p)| == |banco| + |tipo| + |numero| + 6
      && CuentaTxt(e, p)[..|banco|] == banco
      && CuentaTxt(e, p)[|banco|..|banco| + 3] == " · "
      && CuentaTxt(e, p)[|banco| + 3..|banco| + 3 + |tipo|] == tipo
      && CuentaTxt(e, p)[|banco| + 3 + |tipo|..|banco| + 6 + |tipo|] == " · "
      && CuentaTxt(e, p)[|CuentaTxt(e, p)| - |numero|..] == numero
    ensures p.banco == "" && p.tipoCuenta == "" && p.numeroCuenta == "" ==> CuentaTxt(e, p) == "- · - · -"
  {
  }

  /** `${c.codigo} – ${c.nombre}`. */
  function Label(c: Convenio): string
  {
    c.codigo + " – " + c.nombre
  }

  /** The test the source's find applies: the value is the code or the full label. */
  predicate Matches(c: Convenio, convenio: Option<string>)
  {
    convenio.Some? && (c.codigo == convenio.value || Label(c) == convenio.value)
  }

  /** Array.prototype.find, by position: the first entry that matches, if any. */
  function Find(cs: seq<Convenio>, convenio: Option<string>): (r: Option<nat>)
    ensures r == None <==> forall i :: 0 <= i < |cs| ==> !Matches(cs[i], convenio)
    ensures r != None ==> r.value < |cs| && Matches(cs[r.value], convenio)
    ensures r != None ==> forall j :: 0 <= j < r.value ==> !Matches(cs[j], convenio)
  {
    if cs == [] then None
    else if Matches(cs[0], convenio) then Some(0)
    else
      match Find(cs[1..], convenio)
      case None => None
      case Some(k) => Some(k + 1)
  }

  /** convenioTxt: the full label of a matched agreement; otherwise the raw
      value, or "-" when it is missing or empty. */
  function ConvenioTxt(convenio: Option<string>): (r: string)
    ensures r != ""
  {
    match Find(Convenios, convenio)
    case Some(k) => Label(Convenios[k])
    case None => if convenio == None || convenio.value == "" then "-" else convenio.value
  }

  /** Every known code renders as its full label. */
  lemma KnownCode()
    ensures forall k :: 0 <= k < |Convenios| ==> ConvenioTxt(Some(Convenios[k].codigo)) == Label(Convenios[k])
    ensures ConvenioTxt(Some("2975-2024")) == "2975-2024 – Ministerio de Cultura"
  {
    var c0, c1 := Convenios[0], Convenios[1];
    assert Label(c0) == "2975-2024 – Ministerio de Cultura";
    assert Matches(c0, Some(c0.codigo));
    assert |Label(c0)| > 9 && |c1.codigo| == 9;
    assert c0.codigo[1] == '9' && c1.codigo[1] == '0';
    assert !Matches(c0, Some(c1.codigo));
    assert Find(Convenios, Some(c1.codigo)) == Some(1);
  }

  /** Every known full label renders as itself. */
  lemma KnownLabel()
    ensures forall k :: 0 <= k < |Convenios| ==> ConvenioTxt(Some(Label(Convenios[k]))) == Label(Convenios[k])
  {
    LabelsMatchOnlyThemselves(0);
    LabelsMatchOnlyThemselves(1);
  }

  /** A missing or empty agreement renders as "-". */
  lemma MissingConvenio()
    ensures ConvenioTxt(None) == "-" && ConvenioTxt(Some("")) == "-"
  {
    assert !Matches(Convenios[0], Some("")) && !Matches(Convenios[1], Some(""));
  }

  /** A value that matches no agreement renders as it was given, or as
      "-" when it is empty. */
  lemma UnknownConvenio(s: string)
    requires Find(Convenios, Some(s)) == None
    ensures ConvenioTxt(Some(s)) == if s == "" then "-" else s
  {
  }

  /** An agreement code that is not in the list, such as "2020-2021",
      passes through unchanged. */
  lemma UnknownCodeExample()
    ensures ConvenioTxt(Some("2020-2021")) == "2020-2021"
  {
    var c0, c1 := Convenios[0], Convenios[1];
    assert c0.codigo[1] == '9' && c1.codigo[3] == '9';
    assert |Label(c0)| > 9 && |Label(c1)| > 9;
    assert !Matches(c0, Some("2020-2021")) && !Matches(c1, Some("2020-2021"));
  }

  /** A label matches its own agreement and no other: no code equals a
      label, and the two labels differ. */
  lemma LabelsMatchOnlyThemselves(k: nat)
    requires k < |Convenios|
    ensures Find(Convenios, Some(Label(Convenios[k]))) == Some(k)
    ensures forall j :: 0 <= j < |Convenios| && j != k ==> !Matches(Convenios[j], Some(Label(Convenios[k])))
  {
    var c0, c1 := Convenios[0], Convenios[1];
    assert |c0.codigo| == 9 && |c1.codigo| == 9;
    assert |Label(c0)| > 9 && |Label(c1)| > 9;
    assert Label(c0)[1] == '9' && Label(c1)[1] == '0';
    assert !Matches(c0, Some(Label(c1))) && !Matches(c1, Some(Label(c0)));
  }

  /** Rendering an already rendered agreement changes nothing. */
  lemma ConvenioTxtIdempotent(convenio: Option<string>)
    ensures ConvenioTxt(Some(ConvenioTxt(convenio))) == ConvenioTxt(convenio)
  {
    var m := Find(Convenios, convenio);
    if m.Some? {
      LabelsMatchOnlyThemselves(m.value);
    } else if convenio == None || convenio.value == "" {
      assert !Matches(Convenios[0], Some("-")) && !Matches(Convenios[1], Some("-"));
    }
  }

  /** nombrePrestador: names and surnames joined by one space, trimmed.
      The result is the joined text with its leading and trailing
      whitespace cut off, so names that do not start or end with
      whitespace are shown exactly as "<nombres> <apellidos>". */
  function NombrePrestador(p: Prestador): (r: string)
    ensures var full := p.nombres + " " + p.apellidos;
      exists i :: 0 <= i <= |full| - |r| && IsBlank(full[..i]) && r == full[i..i + |r|] && IsBlank(full[i + |r|..])
    ensures r == "" <==> IsBlank(p.nombres + " " + p.apellidos)
    ensures r != "" ==> !IsSpace(r[0]) && !IsSpace(r[|r| - 1])
    ensures p.nombres != "" && p.apellidos != "" && !IsSpace(p.nombres[0]) && !IsSpace(p.apellidos[|p.apellidos| - 1]) ==>
      r == p.nombres + " " + p.apellidos
  {
    JoinedNameKept(p);
    Trim(p.nombres + " " + p.apellidos)
  }

  /** Names that do not start or end with whitespace survive the trim. */
  lemma JoinedNameKept(p: Prestador)
    ensures p.nombres != "" && p.apellidos != "" && !IsSpace(p.nombres[0]) && !IsSpace(p.apellidos[|p.apellidos| - 1]) ==>
      Trim(p.nombres + " " + p.apellidos) == p.nombres + " " + p.apellidos
  {
    var full := p.nombres + " " + p.apellidos;
    if p.nombres != "" && p.apellidos != "" {
      assert full[0] == p.nombres[0] && full[|full| - 1] == p.apellidos[|p.apellidos| - 1];
      if !IsSpace(p.nombres[0]) && !IsSpace(p.apellidos[|p.apellidos| - 1]) {
        TrimOfTrimmed(full);
      }
    }
  }

  lemma NombrePrestadorMissing(p: Prestador)
    requires p.nombres == "" && p.apellidos == ""
    ensures NombrePrestador(p) == ""
  {
    assert IsBlank(" ");
  }

  // ---------------------------------------------------------------------
  // The ledger table

  /** A table cell: text, an amount shown through fmtMoney, or the
      retention percentage shown as `RETENCIÓN <pct>%`. */
  datatype Cell = Text(text: string) | Money(amount: int) | RetentionLabel(pct: Ratio)

  /** A row of the ledger: code, account, partial, debit and credit. */
  datatype LedgerRow = LedgerRow(codigo: string, cuenta: Cell, parcial: Cell, debito: Cell, credito: Cell)

  /** The cash account 1105 for cash payments, the bank account 1110 for
      anything else. */
  function AccountCode(medioPago: string): (code: string)
    ensures code == "1105" <==> medioPago == "efectivo"
    ensures code == "1110" <==> medioPago != "efectivo"
  {
    if medioPago == "efectivo" then "1105" else "1110"
  }

  /** tablaContable: the third-party funds received, the retention, the
      payment, and the "Suma iguales:" totals row. */
  function Ledger(e: Egreso): (rows: seq<LedgerRow>)
    ensures |rows| == 4
    ensures rows[1].credito == rows[1].parcial && rows[2].credito == rows[2].parcial
    ensures rows[3].debito == rows[0].debito == Money(Gross(e))
    ensures rows[3].credito == Money(Gross(e))
    ensures rows[0].codigo == "28150510" && rows[0].parcial == Text("") && rows[0].credito == Text("")
    ensures rows[1].codigo == e.codRetencion && rows[1].cuenta == RetentionLabel(RetencionPct(e))
    ensures rows[1].parcial == Money(Retention(e)) && rows[1].debito == Text("")
    ensures rows[2].codigo == AccountCode(e.medioPago)
    ensures rows[2].parcial == Money(Net(e)) && rows[2].debito == Text("")
    ensures rows[3].codigo == "" && rows[3].cuenta == Text("Suma iguales:") && rows[3].parcial == Text("")
  {
    var conv := ConvenioTxt(e.convenio);
    [
      LedgerRow("28150510",
        Text("VALORES RECIBIDOS PARA TERCEROS " + conv + " diseño y manejo de redes sociales"),
        Text(""), Money(Gross(e)), Text("")),
      LedgerRow(e.codRetencion, RetentionLabel(RetencionPct(e)), Money(Retention(e)), Text(""), Money(Retention(e))),
      LedgerRow(AccountCode(e.medioPago), Text(if e.medioPago != "" then ToUpper(e.medioPago) else ""),
        Money(Net(e)), Text(""), Money(Net(e))),
      LedgerRow("", Text("Suma iguales:"), Text(""), Money(Gross(e)), Money(Gross(e)))
    ]
  }

  /** The amount a cell adds to its column; text counts as nothing. */
  function Amount(c: Cell): int
  {
    if c.Money? then c.amount else 0
  }

  function DebitTotal(rows: seq<LedgerRow>): int
  {
    if rows == [] then 0 else Amount(rows[0].debito) + DebitTotal(rows[1..])
  }

  function CreditTotal(rows: seq<LedgerRow>): int
  {
    if rows == [] then 0 else Amount(rows[0].credito) + CreditTotal(rows[1..])
  }

  function PartialTotal(rows: seq<LedgerRow>): int
  {
    if rows == [] then 0 else Amount(rows[0].parcial) + PartialTotal(rows[1..])
  }

  /** The ledger balances: over the three entry rows the debits, the
      credits and the partials all add up to the gross, and the totals row
      shows the gross as both debit and credit. */
  lemma LedgerBalances(e: Egreso)
    ensures |Ledger(e)| == 4
    ensures DebitTotal(Ledger(e)[..3]) == Gross(e)
    ensures CreditTotal(Ledger(e)[..3]) == Gross(e)
    ensures PartialTotal(Ledger(e)[..3]) == Gross(e)
    ensures Ledger(e)[3].debito == Money(Gross(e)) && Ledger(e)[3].credito == Money(Gross(e))
  {
    ThreeRowTotals(Ledger(e)[..3]);
  }

  lemma ThreeRowTotals(rows: seq<LedgerRow>)
    requires |rows| == 3
    ensures DebitTotal(rows) == Amount(rows[0].debito) + Amount(rows[1].debito) + Amount(rows[2].debito)
    ensures CreditTotal(rows) == Amount(rows[0].credito) + Amount(rows[1].credito) + Amount(rows[2].credito)
    ensures PartialTotal(rows) == Amount(rows[0].parcial) + Amount(rows[1].parcial) + Amount(rows[2].parcial)
  {
    assert rows[1..][1..][1..] == [];
    assert rows[1..][0] == rows[1] && rows[1..][1..][0] == rows[2];
    assert DebitTotal(rows[1..][1..]) == Amount(rows[2].debito) + DebitTotal(rows[1..][1..][1..]);
    assert CreditTotal(rows[1..][1..]) == Amount(rows[2].credito) + CreditTotal(rows[1..][1..][1..]);
    assert PartialTotal(rows[1..][1..]) == Amount(rows[2].parcial) + PartialTotal(rows[1..][1..][1..]);
  }

  /** The payment row carries account 1105 exactly for cash payments. */
  lemma PaymentRowAccount(e: Egreso)
    ensures Ledger(e)[2].codigo == "1105" <==> e.medioPago == "efectivo"
    ensures Ledger(e)[2].codigo == "1110" <==> e.medioPago != "efectivo"
  {
  }

  // ---------------------------------------------------------------------
  // The voucher and its storage key

  /** What the page shows, block by block. */
  datatype EgresoPdf = EgresoPdf(
    numero: nat,
    proveedor: seq<(string, Cell)>,
    conceptoTabla: seq<(string, Cell)>,
    sumaEnLetras: string,
    tablaContable: seq<LedgerRow>,
    marcaAnulado: bool)

  /** The words line: `numeroALetras(valorNeto)`. The net is already an
      integer, so the rounding inside numeroALetras leaves it alone and the
      line spells the net value itself. */
  function SumaEnLetras(e: Egreso): (r: string)
    ensures r == "LA SUMA DE (EN LETRAS): " + AmountInWords(Net(e))
  {
    RoundOfInteger(Net(e));
    "LA SUMA DE (EN LETRAS): " + AmountInWords(Round(FromInt(Net(e))))
  }

  /** The watermark is drawn only when `anulado === true`. */
  function MarcaAnulado(e: Egreso): (r: bool)
    ensures r <==> e.anulado == Bool(true)
  {
    IsStrictTrue(e.anulado)
  }

  /** The provider panel: the trimmed name, the cédula or "-", the
      telephone or "No registrado", and the agreement text. */
  function ProveedorPanel(e: Egreso, p: Prestador): (r: seq<(string, Cell)>)
    ensures |r| == 4 && forall k :: 1 <= k < 4 ==> r[k].1.Text? && r[k].1.text != ""
    ensures r[0].1 == Text(NombrePrestador(p))
    ensures p.cedula != "" ==> r[1].1 == Text(p.cedula)
    ensures p.cedula == "" ==> r[1].1 == Text("-")
    ensures p.telefono != "" ==> r[2].1 == Text(p.telefono)
    ensures p.telefono == "" ==> r[2].1 == Text("No registrado")
    ensures r[3].1 == Text(ConvenioTxt(e.convenio))
  {
    [("Proveedor", Text(NombrePrestador(p))),
     ("Cédula", Text(OrDefault(p.cedula, "-"))),
     ("Teléfono", Text(OrDefault(p.telefono, "No registrado"))),
     ("Convenio", Text(ConvenioTxt(e.convenio)))]
  }

  /** The concept panel: the concept and the description, each "-" when
      missing. */
  function ConceptoTabla(e: Egreso): (r: seq<(string, Cell)>)
    ensures |r| == 2 && forall k :: 0 <= k < 2 ==> r[k].1.Text? && r[k].1.text != ""
    ensures e.concepto != "" ==> r[0].1 == Text(e.concepto)
    ensures e.concepto == "" ==> r[0].1 == Text("-")
    ensures e.descripcion != "" ==> r[1].1 == Text(e.descripcion)
    ensures e.descripcion == "" ==> r[1].1 == Text("-")
  {
    [("Concepto", Text(OrDefault(e.concepto, "-"))),
     ("Observación", Text(OrDefault(e.descripcion, "-")))]
  }

  /** The page: the provider and concept panels, the words line spelling
      the amount the payment row pays, the ledger table and the watermark
      flag. */
  function Voucher(e: Egreso, p: Prestador): (v: EgresoPdf)
    ensures v.numero == e.consecutivo
    ensures |v.proveedor| == 4 && forall k :: 1 <= k < 4 ==> v.proveedor[k].1.Text? && v.proveedor[k].1.text != ""
    ensures v.proveedor[0].1 == Text(NombrePrestador(p))
    ensures p.cedula != "" ==> v.proveedor[1].1 == Text(p.cedula)
    ensures p.cedula == "" ==> v.proveedor[1].1 == Text("-")
    ensures p.telefono != "" ==> v.proveedor[2].1 == Text(p.telefono)
    ensures p.telefono == "" ==> v.proveedor[2].1 == Text("No registrado")
    ensures v.proveedor[3].1 == Text(ConvenioTxt(e.convenio))
    ensures |v.conceptoTabla| == 2 && forall k :: 0 <= k < 2 ==> v.conceptoTabla[k].1.Text? && v.conceptoTabla[k].1.text != ""
    ensures e.concepto != "" ==> v.conceptoTabla[0].1 == Text(e.concepto)
    ensures e.concepto == "" ==> v.conceptoTabla[0].1 == Text("-")
    ensures e.descripcion != "" ==> v.conceptoTabla[1].1 == Text(e.descripcion)
    ensures e.descripcion == "" ==> v.conceptoTabla[1].1 == Text("-")
    ensures v.tablaContable == Ledger(e) && v.tablaContable[2].parcial == Money(Net(e))
    ensures v.sumaEnLetras == "LA SUMA DE (EN LETRAS): " + AmountInWords(Net(e))
    ensures v.marcaAnulado <==> e.anulado == Bool(true)
  {
    EgresoPdf(e.consecutivo, ProveedorPanel(e, p), ConceptoTabla(e), SumaEnLetras(e), Ledger(e), MarcaAnulado(e))
  }

  /** The voucher's own ledger table balances: its three entry rows add up
      to the gross in every column, and its totals row shows the gross. */
  lemma VoucherLedgerBalances(e: Egreso, p: Prestador)
    ensures var t := Voucher(e, p).tablaContable;
      && |t| == 4
      && DebitTotal(t[..3]) == Gross(e)
      && CreditTotal(t[..3]) == Gross(e)
      && PartialTotal(t[..3]) == Gross(e)
      && t[3].debito == Money(Gross(e)) && t[3].credito == Money(Gross(e))
  {
    LedgerBalances(e);
  }

  lemma RoundOfInteger(n: int)
    ensures Round(FromInt(n)) == n
  {
    var r := Round(FromInt(n));
    assert (2 * r - 1) <= 2 * n < 2 * r + 1;
  }

  /** The watermark follows `anulado === true` strictly: the string "true"
      or the number 1 are truthy yet leave the page unmarked. */
  lemma WatermarkStrict(e: Egreso, p: Prestador)
    ensures Voucher(e, p).marcaAnulado <==> e.anulado == Bool(true)
    ensures e.anulado == Str("true") ==> Truthy(e.anulado) && !MarcaAnulado(e)
    ensures e.anulado == Number(FromInt(1)) ==> Truthy(e.anulado) && !MarcaAnulado(e)
  {
  }

  /** `${egreso.convenio || "general"}/egreso_${egreso.consecutivo}.pdf`. */
  function StoragePath(e: Egreso): (r: string)
    ensures EndsWith(r, ".pdf")
    ensures e.convenio.Some? && e.convenio.value != "" ==>
      && |r| > |e.convenio.value|
      && r[..|e.convenio.value|] == e.convenio.value
      && r[|e.convenio.value|] == '/'
      && r[|e.convenio.value| + 1..] == "egreso_" + NatToString(e.consecutivo) + ".pdf"
  {
    var folder := if e.convenio == None then "general" else OrDefault(e.convenio.value, "general");
    folder + "/egreso_" + NatToString(e.consecutivo) + ".pdf"
  }

  /** Without an agreement the voucher goes to the "general" folder. */
  lemma StoragePathDefaultFolder(e: Egreso)
    requires e.convenio == None || e.convenio == Some("")
    ensures StoragePath(e) == "general/egreso_" + NatToString(e.consecutivo) + ".pdf"
  {
  }

  /** Within one folder, different voucher numbers never share a key. */
  lemma StoragePathInjective(a: Egreso, b: Egreso)
    requires a.convenio == b.convenio
    requires StoragePath(a) == StoragePath(b)
    ensures a.consecutivo == b.consecutivo
  {
    var folder := if a.convenio == None then "general" else OrDefault(a.convenio.value, "general");
    var head := folder + "/egreso_";
    var da, db := NatToString(a.consecutivo), NatToString(b.consecutivo);
    var s := StoragePath(a);
    assert s == head + da + ".pdf";
    assert StoragePath(b) == head + db + ".pdf";
    assert |da| == |db|;
    assert da == s[|head|..|head| + |da|];
    assert db == s[|head|..|head| + |db|];
    NatToStringInjective(a.consecutivo, b.consecutivo);
  }

  /** The folder is the agreement text itself, so a voucher without an
      agreement and one whose agreement is literally "general" share a key:
      the second upload replaces the first. */
  lemma StoragePathGeneralCollision(a: Egreso, b: Egreso)
    requires a.convenio == None && b.convenio == Some("general")
    requires a.consecutivo == b.consecutivo
    ensures StoragePath(a) == StoragePath(b)
  {
  }

  /** The bucket: stored documents by key. */
  type Bucket = map<string, EgresoPdf>

  /** upload(path, pdf, { upsert: true }): the key now holds the new
      document whether or not it existed; every other key is untouched. */
  function Upload(bucket: Bucket, path: string, pdf: EgresoPdf): (r: Bucket)
    ensures r.Keys == bucket.Keys + {path}
    ensures r[path] == pdf
    ensures forall k :: k in bucket && k != path ==> r[k] == bucket[k]
  {
    bucket[path := pdf]
  }

  /** Regenerating a voucher (after voiding it, say) replaces the stored
      document instead of adding a second one. */
  lemma RegenerateReplaces(bucket: Bucket, e: Egreso, p: Prestador, e2: Egreso, p2: Prestador)
    requires e2.convenio == e.convenio && e2.consecutivo == e.consecutivo
    ensures var once := Upload(bucket, StoragePath(e), Voucher(e, p));
      var twice := Upload(once, StoragePath(e2), Voucher(e2, p2));
      twice.Keys == once.Keys && twice[StoragePath(e)] == Voucher(e2, p2)
  {
  }
}
