/** numeroALetras from src/lib/format.js: a peso amount written out in
    Spanish words, the sentence both vouchers print under their tables.

    The source builds its text by guarded `+=` appends; the methods below do
    the same and are proved equal to a reference definition that lists the
    words and joins them with single spaces. */
module Format {
  import opened JsRuntime

  // The four word tables of the source, one lookup function each.

  /** `unidades[u]`. */
  function Unidad(u: nat): string
    requires u < 10
  {
    match u
    case 0 => ""
    case 1 => "uno"
    case 2 => "dos"
    case 3 => "tres"
    case 4 => "cuatro"
    case 5 => "cinco"
    case 6 => "seis"
    case 7 => "siete"
    case 8 => "ocho"
    case _ => "nueve"
  }

  /** `decenas[d]`. */
  function Decena(d: nat): string
    requires d < 10
  {
    match d
    case 0 => ""
    case 1 => "diez"
    case 2 => "veinte"
    case 3 => "treinta"
    case 4 => "cuarenta"
    case 5 => "cincuenta"
    case 6 => "sesenta"
    case 7 => "setenta"
    case 8 => "ochenta"
    case _ => "noventa"
  }

  /** `especiales[u]`: ten to nineteen. */
  function Especial(u: nat): string
    requires u < 10
  {
    match u
    case 0 => "diez"
    case 1 => "once"
    case 2 => "doce"
    case 3 => "trece"
    case 4 => "catorce"
    case 5 => "quince"
    case 6 => "dieciséis"
    case 7 => "diecisiete"
    case 8 => "dieciocho"
    case _ => "diecinueve"
  }

  /** `centenas[c]` as JavaScript evaluates it: past the end of the table the
      lookup yields undefined, which string concatenation prints as "undefined". */
  function Centena(c: nat): string
  {
    match c
    case 0 => ""
    case 1 => "cien"
    case 2 => "doscientos"
    case 3 => "trescientos"
    case 4 => "cuatrocientos"
    case 5 => "quinientos"
    case 6 => "seiscientos"
    case 7 => "setecientos"
    case 8 => "ochocientos"
    case 9 => "novecientos"
    case _ => "undefined"
  }

  // ---------------------------------------------------------------------
  // Shape of the text

  /** A single word: non-empty and without whitespace. */
  predicate IsWord(w: string)
  {
    |w| > 0 && forall i :: 0 <= i < |w| ==> !IsSpace(w[i])
  }

  /** Non-empty, no whitespace at either end, never two whitespace characters in a row. */
  predicate WellSpaced(s: string)
  {
    && |s| > 0
    && !IsSpace(s[0])
    && !IsSpace(s[|s| - 1])
    && forall i :: 0 <= i < |s| - 1 ==> !(IsSpace(s[i]) && IsSpace(s[i + 1]))
  }

  predicate CeroAt(s: string, i: int)
  {
    0 <= i && i + 4 <= |s| && s[i] == 'c' && s[i + 1] == 'e' && s[i + 2] == 'r' && s[i + 3] == 'o'
  }

  /** The text "cero" does not occur anywhere in s. */
  predicate NoCero(s: string)
  {
    forall i :: 0 <= i < |s| ==> !CeroAt(s, i)
  }

  predicate GoodWord(w: string)
  {
    IsWord(w) && NoCero(w)
  }

  predicate AllGoodWords(ws: seq<string>)
  {
    forall k :: 0 <= k < |ws| ==> GoodWord(ws[k])
  }

  predicate Letter(c: char)
  {
    'a' <= c <= 'z' || c == 'é'
  }

  /** Lower-case letters only, and never an "e" right before an "r": a cheap
      test that every table word passes and that rules out whitespace and "cero". */
  predicate PlainWord(w: string)
  {
    && |w| > 0
    && forall i :: 0 <= i < |w| ==> Letter(w[i]) && (i + 1 < |w| ==> !(w[i] == 'e' && w[i + 1] == 'r'))
  }

  lemma PlainWordIsGood(w: string)
    requires PlainWord(w)
    ensures GoodWord(w)
  {
    forall i | 0 <= i < |w|
      ensures !CeroAt(w, i)
    {
      if i + 4 <= |w| {
        assert !(w[i + 1] == 'e' && w[i + 2] == 'r');
      }
    }
  }

  lemma UnidadesArePlain()
    ensures forall k :: 1 <= k < 10 ==> PlainWord(Unidad(k))
  {
  }

  lemma DecenasArePlain()
    ensures forall k :: 1 <= k < 10 ==> PlainWord(Decena(k))
  {
  }

  lemma EspecialesArePlain()
    ensures forall k :: 0 <= k < 10 ==> PlainWord(Especial(k))
  {
  }

  lemma CentenasArePlain()
    ensures forall k :: 1 <= k < 10 ==> PlainWord(Centena(k))
    ensures PlainWord("undefined")
  {
    LowCentenasArePlain();
    MiddleCentenasArePlain();
    HighCentenasArePlain();
  }

  lemma LowCentenasArePlain()
    ensures forall k :: 1 <= k < 5 ==> PlainWord(Centena(k))
  {
  }

  lemma MiddleCentenasArePlain()
    ensures forall k :: 5 <= k < 8 ==> PlainWord(Centena(k))
  {
  }

  lemma HighCentenasArePlain()
    ensures forall k :: 8 <= k < 10 ==> PlainWord(Centena(k))
  {
  }

  lemma SuffixesArePlain()
    ensures PlainWord("y") && PlainWord("mil") && PlainWord("millones") && PlainWord("pesos")
  {
  }

  /** Every entry of the four word tables except the empty first slot is a
      single word, and none of them contains "cero"; nor do the joining
      words. */
  lemma TablesAreGoodWords()
    ensures forall k :: 1 <= k < 10 ==> GoodWord(Unidad(k))
    ensures forall k :: 1 <= k < 10 ==> GoodWord(Decena(k))
    ensures forall k :: 0 <= k < 10 ==> GoodWord(Especial(k))
    ensures forall c: nat :: c >= 1 ==> GoodWord(Centena(c))
    ensures GoodWord("y") && GoodWord("mil") && GoodWord("millones") && GoodWord("pesos")
  {
    UnidadesArePlain();
    DecenasArePlain();
    EspecialesArePlain();
    CentenasArePlain();
    SuffixesArePlain();
    forall k | 1 <= k < 10 ensures GoodWord(Unidad(k)) && GoodWord(Decena(k)) {
      PlainWordIsGood(Unidad(k));
      PlainWordIsGood(Decena(k));
    }
    forall k | 0 <= k < 10 ensures GoodWord(Especial(k)) {
      PlainWordIsGood(Especial(k));
    }
    forall c: nat | c >= 1 ensures GoodWord(Centena(c)) {
      PlainWordIsGood(Centena(c));
    }
    PlainWordIsGood("y");
    PlainWordIsGood("mil");
    PlainWordIsGood("millones");
    PlainWordIsGood("pesos");
  }

  // ---------------------------------------------------------------------
  // Reference definition: the words of the amount

  /** The words for one group below a thousand (the input of
      convertirMenor1000); zero is the word "cero". */
  function GroupWords(num: nat): (ws: seq<string>)
    ensures 1 <= |ws| <= 4
  {
    if num == 0 then ["cero"]
    else
      var c, d, u := num / 100, (num % 100) / 10, num % 10;
      (if c > 0 then [Centena(c)] else []) + TensWords(d, u)
  }

  /** The tens and units of a group: "diez", the special words eleven to
      nineteen, "<tens> y <unit>", or a lone unit. */
  function TensWords(d: nat, u: nat): seq<string>
    requires d < 10 && u < 10
  {
    if d == 1 && u > 0 then [Especial(u)]
    else if d > 0 then [Decena(d)] + (if u > 0 then ["y", Unidad(u)] else [])
    else if u > 0 then [Unidad(u)]
    else []
  }

  /** The three groups of an amount as the source computes them:
      Math.floor(n / 1e6), Math.floor((n % 1e6) / 1e3) and n % 1e3. On a
      non-negative amount they are an exact decomposition; on a negative one
      none of them is positive. */
  datatype Groups = Groups(millones: int, miles: int, cientos: int)

  function SplitGroups(entero: int): (g: Groups)
    ensures entero >= 0 ==>
      && g.millones * 1000000 + g.miles * 1000 + g.cientos == entero
      && g.millones >= 0 && 0 <= g.miles < 1000 && 0 <= g.cientos < 1000
    ensures entero < 0 ==> g.millones < 0 && g.miles <= 0 && g.cientos <= 0
  {
    var g := Groups(FloorDiv(entero, 1000000), FloorDiv(Rem(entero, 1000000), 1000), Rem(entero, 1000));
    SplitGroupsExact(entero, g);
    g
  }

  lemma SplitGroupsExact(entero: int, g: Groups)
    requires g == Groups(FloorDiv(entero, 1000000), FloorDiv(Rem(entero, 1000000), 1000), Rem(entero, 1000))
    ensures entero >= 0 ==> g.millones * 1000000 + g.miles * 1000 + g.cientos == entero
    ensures entero >= 0 ==> g.millones >= 0 && 0 <= g.miles < 1000 && 0 <= g.cientos < 1000
    ensures entero < 0 ==> g.millones < 0 && g.miles <= 0 && g.cientos <= 0
  {
    if entero >= 0 {
      var m := g.millones;
      var r1 := Rem(entero, 1000000);
      RemOfNonNegative(entero, 1000000);
      DivModUnique(entero, 1000000, entero / 1000000, entero % 1000000);
      assert r1 == entero - m * 1000000;
      var k := g.miles;
      assert k * 1000 <= r1 < k * 1000 + 1000;
      RemOfNonNegative(entero, 1000);
      DivModUnique(entero, 1000, m * 1000 + k, r1 - k * 1000);
    }
  }

  /** The words of a whole amount (without the final "pesos"): each non-zero
      group in turn, the millions and thousands followed by their suffix. */
  function AmountWords(entero: int): seq<string>
  {
    GroupsWords(SplitGroups(entero))
  }

  function GroupsWords(g: Groups): seq<string>
  {
    (if g.millones > 0 then GroupWords(g.millones) + ["millones"] else [])
    + (if g.miles > 0 then GroupWords(g.miles) + ["mil"] else [])
    + (if g.cientos > 0 then GroupWords(g.cientos) else [])
  }

  /** numeroALetras for an amount already rounded to an integer: the text
      always ends in " pesos". */
  function AmountInWords(entero: int): (r: string)
    ensures EndsWith(r, " pesos")
  {
    if entero == 0 then "cero pesos"
    else
      var w := Join(AmountWords(entero), ' ');
      assert (w + " pesos")[|w|..] == " pesos";
      w + " pesos"
  }

  // ---------------------------------------------------------------------
  // The appends of the source, proved against the reference

  /** convertirMenor1000: appends the hundreds word, a space only when
      something follows, then the tens and units. */
  method ConvertirMenor1000(num: nat) returns (resultado: string)
    ensures resultado == Join(GroupWords(num), ' ')
  {
    if num == 0 {
      return "cero";
    }
    resultado := "";
    var c := num / 100;
    var d := (num % 100) / 10;
    var u := num % 10;

    if c > 0 {
      resultado := resultado + Centena(c);
      if d > 0 || u > 0 {
        resultado := resultado + " ";
      }
    }
    ghost var head := resultado;
    assert head == if c > 0 then Centena(c) + (if d > 0 || u > 0 then " " else "") else "";
    if d > 0 {
      if d == 1 && u > 0 && u < 10 {
        resultado := resultado + Especial(u);
      } else {
        resultado := resultado + Decena(d);
        if u > 0 {
          resultado := resultado + (" y " + Unidad(u));
          AppendAssoc(head, Decena(d), " y " + Unidad(u));
        }
      }
    } else if u > 0 {
      resultado := resultado + Unidad(u);
    }
    TensJoin(d, u);
    assert resultado == head + Join(TensWords(d, u), ' ');
    GroupJoin(num);
  }

  /** A non-zero group reads as well-spaced words with no "cero". */
  lemma GroupShape(num: nat)
    requires num > 0
    ensures WellSpaced(Join(GroupWords(num), ' ')) && NoCero(Join(GroupWords(num), ' '))
  {
    GroupWordsGood(num);
    JoinGoodWords(GroupWords(num));
  }

  /** The joined words of a non-zero group, piece by piece: the hundreds
      word, one space only when tens or units follow, then those. */
  lemma GroupJoin(num: nat)
    requires num > 0
    ensures var c, d, u := num / 100, (num % 100) / 10, num % 10;
      Join(GroupWords(num), ' ') ==
        (if c > 0 then Centena(c) + (if d > 0 || u > 0 then " " else "") else "")
        + Join(TensWords(d, u), ' ')
  {
    var c, d, u := num / 100, (num % 100) / 10, num % 10;
    var tens := TensWords(d, u);
    assert tens == [] <==> d == 0 && u == 0;
    if c > 0 && tens != [] {
      JoinConcat([Centena(c)], tens);
    } else if c == 0 {
      assert GroupWords(num) == tens;
    }
  }

  /** numeroALetras: rounds the amount, answers "cero pesos" for zero, and
      otherwise appends each non-zero group with its suffix, separated by
      guarded spaces, trims, and adds " pesos". */
  method NumeroALetras(n: Ratio) returns (r: string)
    ensures r == AmountInWords(Round(n))
  {
    var entero := Round(n);
    if entero == 0 {
      return "cero pesos";
    }

    var g := SplitGroups(entero);
    var millones, miles, cientos := g.millones, g.miles, g.cientos;

    var resultado := "";
    ghost var wm, wk, wc := "", "", "";
    if millones > 0 {
      var w := ConvertirMenor1000(millones);
      wm := w;
      resultado := resultado + (w + " millones");
      if miles > 0 || cientos > 0 {
        resultado := resultado + " ";
      }
    }
    if miles > 0 {
      var w := ConvertirMenor1000(miles);
      wk := w;
      resultado := resultado + (w + " mil");
      if cientos > 0 {
        resultado := resultado + " ";
      }
    }
    if cientos > 0 {
      var w := ConvertirMenor1000(cientos);
      wc := w;
      resultado := resultado + w;
    }
    assert resultado == Appended(g, wm, wk, wc);
    AppendedIsJoin(g, wm, wk, wc);
    AmountTrimmed(entero);
    r := Trim(resultado) + " pesos";
  }

  /** The text the source's guarded appends build from the three group
      texts (each one used only when its group is positive). */
  ghost function Appended(g: Groups, wm: string, wk: string, wc: string): string
  {
    var s1 := if g.millones > 0 then "" + (wm + " millones") + (if g.miles > 0 || g.cientos > 0 then " " else "") else "";
    var s2 := if g.miles > 0 then s1 + (wk + " mil") + (if g.cientos > 0 then " " else "") else s1;
    if g.cientos > 0 then s2 + wc else s2
  }

  /** The words each group contributes, empty for a skipped group. */
  function Piece(num: int, suffix: seq<string>): seq<string>
  {
    if num > 0 then GroupWords(num) + suffix else []
  }

  /** The guarded appends give the reference words joined by single spaces. */
  lemma AppendedIsJoin(g: Groups, wm: string, wk: string, wc: string)
    requires g.millones > 0 ==> wm == Join(GroupWords(g.millones), ' ')
    requires g.miles > 0 ==> wk == Join(GroupWords(g.miles), ' ')
    requires g.cientos > 0 ==> wc == Join(GroupWords(g.cientos), ' ')
    ensures Appended(g, wm, wk, wc) == Join(GroupsWords(g), ' ')
  {
    var pm, pk, pc := Piece(g.millones, ["millones"]), Piece(g.miles, ["mil"]), Piece(g.cientos, []);
    var s1 := if g.millones > 0 then "" + (wm + " millones") + (if g.miles > 0 || g.cientos > 0 then " " else "") else "";
    AppendedFirst(g.millones, wm, g.miles > 0 || g.cientos > 0);
    assert s1 == Pending(pm, g.miles > 0 || g.cientos > 0);
    var s2 := if g.miles > 0 then s1 + (wk + " mil") + (if g.cientos > 0 then " " else "") else s1;
    AppendedNext(pm, g.miles, "mil", " mil", wk, s1, g.cientos > 0);
    assert s2 == Pending(pm + pk, g.cientos > 0);
    var s3 := if g.cientos > 0 then s2 + wc else s2;
    if g.cientos > 0 {
      assert wc + "" == wc;
    }
    AppendedNext(pm + pk, g.cientos, "", "", wc, s2, false);
    assert s3 == Pending(pm + pk + pc, false);
    assert pm + pk + pc == GroupsWords(g);
  }

  lemma AppendedFirst(num: int, w: string, more: bool)
    requires num > 0 ==> w == Join(GroupWords(num), ' ')
    ensures (if num > 0 then "" + (w + " millones") + (if more then " " else "") else "")
      == Pending(Piece(num, ["millones"]), more)
  {
    if num > 0 {
      GroupSuffix(num, w, "millones", " millones");
      PendingFirst(Piece(num, ["millones"]), w + " millones");
      if more {
        PendingSpace(Piece(num, ["millones"]));
      }
    }
  }

  /** One later group: nothing when it is skipped, otherwise its text (and
      suffix) after what was there, then the guarded space. */
  lemma AppendedNext(done: seq<string>, num: int, suffix: string, spaced: string,
                     w: string, before: string, more: bool)
    requires num > 0 ==> w == Join(GroupWords(num), ' ')
    requires spaced == if suffix == "" then "" else " " + suffix
    requires before == Pending(done, num > 0 || more)
    ensures (if num > 0 then before + (w + spaced) + (if more then " " else "") else before)
      == Pending(done + Piece(num, if suffix == "" then [] else [suffix]), more)
  {
    var piece := Piece(num, if suffix == "" then [] else [suffix]);
    if num > 0 {
      if suffix == "" {
        assert piece == GroupWords(num);
        assert w + spaced == w;
      } else {
        GroupSuffix(num, w, suffix, spaced);
      }
      GroupWordsNonEmpty(num);
      PendingStep(done, piece, w + spaced);
      if more {
        PendingSpace(done + piece);
      }
    } else {
      PendingSkip(done, piece, more);
    }
  }

  /** What the source has appended so far: the words joined by spaces,
      with the guarded trailing space when more follows. */
  ghost function Pending(words: seq<string>, more: bool): string
  {
    if words == [] then "" else Join(words, ' ') + (if more then " " else "")
  }

  /** One guarded append of the source: what was there (with its trailing
      space when non-empty) followed by the next piece is the join of both. */
  lemma PendingStep(done: seq<string>, piece: seq<string>, next: string)
    requires piece != []
    requires next == Join(piece, ' ')
    ensures Pending(done, true) + next == Pending(done + piece, false)
  {
    JoinAppend(done, piece);
    if done == [] {
      assert done + piece == piece;
    }
  }

  /** The first append, to the empty string. */
  lemma PendingFirst(piece: seq<string>, next: string)
    requires piece != []
    requires next == Join(piece, ' ')
    ensures "" + next == Pending(piece, false)
  {
  }

  /** A skipped group appends nothing. */
  lemma PendingSkip(done: seq<string>, piece: seq<string>, more: bool)
    requires piece == []
    ensures Pending(done + piece, more) == Pending(done, more)
  {
    assert done + piece == done;
  }

  /** The guarded space after a non-empty prefix. */
  lemma PendingSpace(words: seq<string>)
    requires words != []
    ensures Pending(words, false) + " " == Pending(words, true)
  {
  }

  /** A group followed by its suffix word, as the source spells it. */
  lemma GroupSuffix(num: nat, w: string, suffix: string, spaced: string)
    requires w == Join(GroupWords(num), ' ')
    requires spaced == " " + suffix
    ensures w + spaced == Join(GroupWords(num) + [suffix], ' ')
  {
    GroupWordsNonEmpty(num);
    JoinSuffix(GroupWords(num), suffix);
  }

  /** The text before " pesos" has no whitespace at either end, so the
      source's trim() leaves it alone. */
  lemma AmountTrimmed(entero: int)
    ensures Trim(Join(AmountWords(entero), ' ')) == Join(AmountWords(entero), ' ')
  {
    AmountWordsGood(entero);
    if AmountWords(entero) != [] {
      JoinGoodWords(AmountWords(entero));
    }
    TrimOfTrimmed(Join(AmountWords(entero), ' '));
  }

  lemma GroupWordsNonEmpty(num: nat)
    ensures GroupWords(num) != []
  {
  }

  lemma JoinSuffix(ws: seq<string>, suffix: string)
    requires ws != []
    ensures Join(ws + [suffix], ' ') == Join(ws, ' ') + (" " + suffix)
  {
    JoinConcat(ws, [suffix]);
    assert Join(ws, ' ') + " " + suffix == Join(ws, ' ') + (" " + suffix);
  }


  // ---------------------------------------------------------------------
  // Joining words

  /** Joining two word lists at once: a space between them only when both
      are non-empty. */
  lemma JoinAppend(xs: seq<string>, ys: seq<string>)
    ensures Join(xs + ys, ' ') == Join(xs, ' ') + (if xs != [] && ys != [] then " " else "") + Join(ys, ' ')
  {
    if xs == [] {
      assert xs + ys == ys;
    } else if ys == [] {
      assert xs + ys == xs;
    } else {
      JoinConcat(xs, ys);
    }
  }

  lemma {:induction false} JoinConcat(xs: seq<string>, ys: seq<string>)
    requires xs != [] && ys != []
    ensures Join(xs + ys, ' ') == Join(xs, ' ') + " " + Join(ys, ' ')
  {
    if |xs| == 1 {
      assert xs + ys == [xs[0]] + ys;
      assert (xs + ys)[1..] == ys;
    } else {
      JoinConcat(xs[1..], ys);
      assert (xs + ys)[1..] == xs[1..] + ys;
    }
  }

  lemma TensJoin(d: nat, u: nat)
    requires d < 10 && u < 10
    ensures Join(TensWords(d, u), ' ') ==
      if d == 1 && u > 0 then Especial(u)
      else if d > 0 then Decena(d) + (if u > 0 then " y " + Unidad(u) else "")
      else if u > 0 then Unidad(u)
      else ""
  {
    if d > 1 || (d == 1 && u == 0) {
      if u > 0 {
        assert TensWords(d, u) == [Decena(d), "y", Unidad(u)];
        assert Join(["y", Unidad(u)], ' ') == "y" + " " + Unidad(u);
      }
    }
  }

  /** Words joined by single spaces give well-spaced text with no "cero" in it. */
  lemma {:induction false} JoinGoodWords(ws: seq<string>)
    requires ws != [] && AllGoodWords(ws)
    ensures WellSpaced(Join(ws, ' ')) && NoCero(Join(ws, ' '))
  {
    if |ws| > 1 {
      JoinGoodWords(ws[1..]);
      assert GoodWord(ws[0]);
      SpaceJoinKeepsShape(ws[0], Join(ws[1..], ' '));
    }
  }

  /** Putting one space between two well-spaced texts keeps the shape, and
      creates no "cero" across the seam. */
  lemma SpaceJoinKeepsShape(a: string, b: string)
    requires WellSpaced(a) && WellSpaced(b) && NoCero(a) && NoCero(b)
    ensures WellSpaced(a + " " + b) && NoCero(a + " " + b)
  {
    var s := a + " " + b;
    forall i | 0 <= i < |s| - 1
      ensures !(IsSpace(s[i]) && IsSpace(s[i + 1]))
    {
      if i < |a| - 1 {
        assert s[i] == a[i] && s[i + 1] == a[i + 1];
      } else if i > |a| {
        assert s[i] == b[i - |a| - 1] && s[i + 1] == b[i - |a|];
      }
    }
    forall i | 0 <= i < |s|
      ensures !CeroAt(s, i)
    {
      if i + 4 <= |a| {
        assert !CeroAt(a, i);
        assert s[i] == a[i] && s[i + 1] == a[i + 1] && s[i + 2] == a[i + 2] && s[i + 3] == a[i + 3];
      } else if i > |a| {
        var j := i - |a| - 1;
        assert !CeroAt(b, j);
        if i + 4 <= |s| {
          assert s[i] == b[j] && s[i + 1] == b[j + 1] && s[i + 2] == b[j + 2] && s[i + 3] == b[j + 3];
        }
      } else if i + 4 <= |s| {
        assert s[|a|] == ' ';
      }
    }
  }

  lemma GroupWordsGood(num: nat)
    requires num > 0
    ensures GroupWords(num) != [] && AllGoodWords(GroupWords(num))
  {
    TablesAreGoodWords();
  }

  lemma AmountWordsGood(entero: int)
    ensures AllGoodWords(AmountWords(entero))
    ensures entero > 0 <==> AmountWords(entero) != []
  {
    var g := SplitGroups(entero);
    var pm, pk, pc := Piece(g.millones, ["millones"]), Piece(g.miles, ["mil"]), Piece(g.cientos, []);
    PieceGood(g.millones, "millones");
    PieceGood(g.miles, "mil");
    if g.cientos > 0 { GroupWordsGood(g.cientos); }
    assert AmountWords(entero) == pm + pk + pc;
    GoodWordsConcat(pm, pk);
    GoodWordsConcat(pm + pk, pc);
  }

  lemma PieceGood(num: int, suffix: string)
    requires GoodWord(suffix)
    ensures AllGoodWords(Piece(num, [suffix]))
    ensures num > 0 <==> Piece(num, [suffix]) != []
  {
    if num > 0 {
      GroupWordsGood(num);
      GoodWordsConcat(GroupWords(num), [suffix]);
    }
  }

  lemma GoodWordsConcat(xs: seq<string>, ys: seq<string>)
    requires AllGoodWords(xs) && AllGoodWords(ys)
    ensures AllGoodWords(xs + ys)
  {
    forall k | 0 <= k < |xs + ys|
      ensures GoodWord((xs + ys)[k])
    {
      if k >= |xs| {
        assert (xs + ys)[k] == ys[k - |xs|];
      }
    }
  }

  // ---------------------------------------------------------------------
  // What the words promise

  /** Exactly the amounts that round to zero read "cero pesos". */
  lemma CeroPesosIffZero(entero: int)
    ensures AmountInWords(entero) == "cero pesos" <==> entero == 0
  {
    if entero > 0 {
      AmountShape(entero);
      NotCeroPesos(AmountInWords(entero));
    } else if entero < 0 {
      NegativeAmount(entero);
      assert |AmountInWords(entero)| == 6;
    }
  }

  lemma NotCeroPesos(s: string)
    requires NoCero(s)
    ensures s != "cero pesos"
  {
    assert !CeroAt(s, 0);
  }

  /** Any positive amount reads as well-spaced words ending in " pesos",
      with no "cero" anywhere in the text. */
  lemma AmountShape(entero: int)
    requires entero > 0
    ensures WellSpaced(AmountInWords(entero))
    ensures EndsWith(AmountInWords(entero), " pesos")
    ensures NoCero(AmountInWords(entero))
  {
    var w := Join(AmountWords(entero), ' ');
    assert AmountInWords(entero) == w + " " + "pesos";
    AmountWordsShape(entero);
    TablesAreGoodWords();
    SpaceJoinKeepsShape(w, "pesos");
  }

  /** The words of a positive amount, joined, are well spaced and hold no
      "cero". */
  lemma AmountWordsShape(entero: int)
    requires entero > 0
    ensures WellSpaced(Join(AmountWords(entero), ' ')) && NoCero(Join(AmountWords(entero), ' '))
  {
    AmountWordsGood(entero);
    JoinGoodWords(AmountWords(entero));
  }

  /** A negative amount has no group to spell: only " pesos" remains. */
  lemma NegativeAmount(entero: int)
    requires entero < 0
    ensures AmountInWords(entero) == " pesos"
  {
    assert AmountWords(entero) == [];
  }

  /** 10 is "diez" and 11 to 19 take their own word. */
  lemma TeensUseSpecialWords(num: nat)
    requires 10 <= num <= 19
    ensures Join(GroupWords(num), ' ') == Especial(num - 10)
  {
  }

  /** From twenty on, a non-zero unit is spelled "<tens> y <unit>". */
  lemma TensAndUnit(d: nat, u: nat)
    requires 2 <= d <= 9 && 1 <= u <= 9
    ensures Join(GroupWords(10 * d + u), ' ') == Decena(d) + " y " + Unidad(u)
  {
    var num := 10 * d + u;
    var dw, uw := Decena(d), Unidad(u);
    TensPhrase(dw, uw);
    assert GroupWords(num) == [dw, "y", uw] by {
      DivModUnique(num, 100, 0, num);
      DivModUnique(num, 10, d, u);
      BelowHundred(num);
    }
    assert Join(GroupWords(num), ' ') == Join([dw, "y", uw], ' ');
  }

  /** A round hundred is its hundreds word alone. */
  lemma RoundHundred(c: nat)
    requires 1 <= c <= 9
    ensures Join(GroupWords(100 * c), ' ') == Centena(c)
  {
    var num := 100 * c;
    assert num / 100 == c && num % 100 == 0 && num % 10 == 0;
    assert GroupWords(num) == [Centena(c)] + TensWords(0, 0);
  }

  /** Otherwise the hundreds word is followed by one space and the words of
      the remaining tens and units. */
  lemma HundredsAndRest(c: nat, rest: nat)
    requires 1 <= c <= 9 && 0 < rest < 100
    ensures Join(GroupWords(100 * c + rest), ' ') == Centena(c) + " " + Join(GroupWords(rest), ' ')
  {
    var num := 100 * c + rest;
    var tens := GroupWords(rest);
    assert GroupWords(num) == [Centena(c)] + tens by {
      DivModUnique(num, 100, c, rest);
      DivModUnique(rest, 10, rest / 10, rest % 10);
      DivModUnique(num, 10, 10 * c + rest / 10, rest % 10);
      BelowHundred(rest);
    }
    GroupWordsNonEmpty(rest);
    JoinConcat([Centena(c)], tens);
    assert Join([Centena(c)], ' ') == Centena(c);
  }

  lemma BelowHundred(rest: nat)
    requires 0 < rest < 100
    ensures GroupWords(rest) == TensWords(rest / 10, rest % 10)
  {
    assert rest / 100 == 0 && rest % 100 == rest;
    assert [] + TensWords(rest / 10, rest % 10) == TensWords(rest / 10, rest % 10);
  }

  /** Zero groups are skipped, and the millions and thousands groups carry
      their suffix: the words are each non-zero group's words followed by
      its suffix, in order. */
  lemma GroupsInOrder(entero: int)
    requires entero > 0
    ensures var m, k, c := entero / 1000000, (entero / 1000) % 1000, entero % 1000;
      AmountWords(entero) ==
        (if m > 0 then GroupWords(m) + ["millones"] else [])
        + (if k > 0 then GroupWords(k) + ["mil"] else [])
        + (if c > 0 then GroupWords(c) else [])
  {
    var g := SplitGroups(entero);
    assert g.millones == entero / 1000000;
    assert g.cientos == entero % 1000;
    assert g.miles == (entero / 1000) % 1000;
  }

  lemma ExampleTwentyOne()
    ensures AmountInWords(21) == "veinte y uno pesos"
  {
    assert "veinte" + " " + ("y" + " " + "uno") + " pesos" == "veinte y uno pesos";
    TwentyOneWords();
    JoinThree("veinte", "y", "uno");
  }

  lemma TwentyOneWords()
    ensures AmountWords(21) == ["veinte", "y", "uno"]
  {
    assert SplitGroups(21) == Groups(0, 0, 21);
    assert GroupWords(21) == ["veinte", "y", "uno"];
  }

  lemma ExampleHundred()
    ensures AmountInWords(100) == "cien pesos"
  {
    assert "cien" + " pesos" == "cien pesos";
    assert SplitGroups(100) == Groups(0, 0, 100);
    assert GroupWords(100) == ["cien"];
  }

  /** A million and five: the group word is "uno", never "un". */
  lemma ExampleMillionAndFive()
    ensures AmountInWords(1000005) == "uno millones cinco pesos"
  {
    assert "uno" + " " + ("millones" + " " + "cinco") + " pesos" == "uno millones cinco pesos";
    MillionAndFiveWords();
    JoinThree("uno", "millones", "cinco");
  }

  /** "<tens> y <unit>" as three joined words. */
  lemma TensPhrase(tens: string, unit: string)
    ensures Join([tens, "y", unit], ' ') == tens + " y " + unit
  {
    JoinThree(tens, "y", unit);
    assert " " + ("y" + " ") == " y ";
    AppendAssoc(" ", "y" + " ", unit);
    AppendAssoc("y", " ", unit);
    AppendAssoc(tens, " ", "y" + " " + unit);
    AppendAssoc(tens, " y ", unit);
  }

  lemma JoinThree(a: string, b: string, c: string)
    ensures Join([a, b, c], ' ') == a + " " + (b + " " + c)
  {
    var ws := [a, b, c];
    assert ws[1..] == [b, c];
    assert ws[1..][1..] == [c];
    assert Join([b, c], ' ') == b + " " + c;
  }

  lemma MillionAndFiveWords()
    ensures AmountWords(1000005) == ["uno", "millones", "cinco"]
  {
    assert SplitGroups(1000005) == Groups(1, 0, 5);
    UnitGroup(1);
    UnitGroup(5);
    assert AmountWords(1000005) == GroupWords(1) + ["millones"] + GroupWords(5);
  }

  /** A group below ten is its unit word. */
  lemma UnitGroup(u: nat)
    requires 1 <= u <= 9
    ensures GroupWords(u) == [Unidad(u)]
  {
    assert u / 100 == 0 && (u % 100) / 10 == 0 && u % 10 == u;
    assert GroupWords(u) == [] + TensWords(0, u);
  }

  /** From a thousand millions on, the hundreds lookup runs off its table. */
  lemma ExampleBillion()
    ensures AmountInWords(1000000000) == "undefined millones pesos"
  {
    assert "undefined" + " " + "millones" + " pesos" == "undefined millones pesos";
    BillionWords();
    var ws := ["undefined", "millones"];
    assert ws[1..] == ["millones"];
  }

  lemma BillionWords()
    ensures AmountWords(1000000000) == ["undefined", "millones"]
  {
    assert SplitGroups(1000000000) == Groups(1000, 0, 0);
    assert GroupWords(1000) == ["undefined"];
  }
}
