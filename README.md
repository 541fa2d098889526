# sigef: vouchers, menu and carousel

This project models the decision logic of a foundation's administration site, sigef. The site is written in JavaScript with Next.js, jsPDF and Supabase. The model covers five pieces:

- **Amount in words.** `numeroALetras` spells a peso amount in Spanish ("veinte y uno pesos"). It uses the group speller `convertirMenor1000`. Both are modelled as imperative methods that build the text by guarded appends. Each is proved equal to a reference definition: the words of the amount, joined by single spaces.
- **Expense voucher (comprobante de egreso).** The model covers:
  - gross, retention and net amounts, in exact integer and rational arithmetic;
  - the payment-account text;
  - the agreement (convenio) label;
  - the four-row ledger table and its balance;
  - the amount-in-words line;
  - the ANULADO watermark gate;
  - the storage key and the upsert upload.
- **Income voucher (comprobante de ingreso).** The model covers:
  - the logo format guess;
  - the placeholders of the entity and concept panels;
  - the zero defaults of the totals;
  - the deposited-amount words line;
  - the optional observations block;
  - the watermark gate.
- **Private header.** The model covers the role permission table, the menu that is filtered from it in a fixed order, and the active-entry test.
- **Past-events carousel.** The model covers:
  - `encodePath`, which applies `encodeURIComponent` (UTF-8 percent-encoding, as in section 2.1 of RFC 3986) to the last path segment only;
  - the wrap-around arrow arithmetic;
  - a `Carousel` class whose `idx` field the arrows and the dots update.

The shared JavaScript semantics live in `js_runtime.dfy`:

- `Math.round` on exact rationals is `floor(x + 1/2)`.
- `%` truncates toward zero.
- `trim` uses the ECMAScript whitespace set.
- Case mapping covers ASCII only.
- Decimal `toString`, `split`/`join` and `||` on strings are also modelled there.

In the expense voucher the quantity, the unit value and every money amount are integers, and the retention percentage is an exact rational. In the income voucher every amount (total, tax percentage, tax value and deposited value) is an optional exact rational.

## Model

| member | source | states |
|---|---|---|
| Format.ConvertirMenor1000 | src/lib/format.js:29-51 | the guarded appends produce the group's reference words (hundreds word, "diez"/special word/"<tens> y <unit>"/unit) joined by single spaces; 0 gives "cero" |
| Format.NumeroALetras | src/lib/format.js:53-73 | the result is the reference spelling of the rounded amount: "cero pesos" for 0, otherwise each non-zero group with its suffix, trimmed, then " pesos" |
| Format.SplitGroups | src/lib/format.js:56-58 | for a non-negative amount, millones·10^6 + miles·10^3 + cientos is the amount, with miles and cientos in [0, 999]; for a negative amount no group is positive |
| Format.TablesAreGoodWords | src/lib/format.js:16-27 | every word of the four tables, and the suffixes, is non-empty, holds no whitespace and contains no "cero" |
| Format.GroupShape | src/lib/format.js:29-51 | a non-zero group reads as well-spaced words with no "cero" |
| Format.AmountTrimmed | src/lib/format.js:73 | the text before " pesos" has no surrounding whitespace, so `trim()` leaves it unchanged |
| Format.CeroPesosIffZero | src/lib/format.js:53-54 | the text is "cero pesos" if and only if the rounded amount is 0 |
| Format.AmountShape | src/lib/format.js:60-73 | a positive amount reads as well-spaced words (no leading, trailing or double space), ends in " pesos" and never contains "cero" |
| Format.NegativeAmount | src/lib/format.js:56-73 | a negative amount has no positive group and reads " pesos" |
| Format.TeensUseSpecialWords | src/lib/format.js:40-42 | 10 reads "diez" and 11 to 19 read their special word |
| Format.TensAndUnit | src/lib/format.js:43-45 | from twenty on, a non-zero unit reads "<tens> y <unit>" |
| Format.RoundHundred | src/lib/format.js:36-39 | a round hundred is its hundreds word alone, with no trailing space |
| Format.HundredsAndRest | src/lib/format.js:36-39 | otherwise the hundreds word is followed by one space and the words of the remainder |
| Format.GroupsInOrder | src/lib/format.js:56-71 | the words are the non-zero groups in order, millions followed by "millones" and thousands by "mil", and zero groups are skipped |
| Format.GroupWords | src/lib/format.js:29-51 | a group is spelled by one to four words |
| Format.AmountInWords | src/lib/format.js:53-73 | the spelling always ends in " pesos" |
| Format.AmountWordsShape | src/lib/format.js:56-73 | the words of a positive amount, joined, are well spaced and hold no "cero" |
| Format.ExampleTwentyOne | src/lib/format.js:43-45 | 21 reads "veinte y uno pesos" |
| Format.ExampleHundred | src/lib/format.js:36-39 | 100 reads "cien pesos" |
| Format.ExampleMillionAndFive | src/lib/format.js:61-71 | 1000005 reads "uno millones cinco pesos" |
| Format.ExampleBillion | src/lib/format.js:56-62 | from 10^9 on, the hundreds lookup runs off the table: 10^9 reads "undefined millones pesos" |
| Egreso.NumberOrZero | src/lib/pdf_egreso.js:33-34 | a missing quantity or unit value counts as 0, and a present one as itself |
| Egreso.RetencionPct | src/lib/pdf_egreso.js:35 | the retention percentage is the record's percentage when present, and 0 when missing |
| Egreso.Gross | src/lib/pdf_egreso.js:37 | the gross is the quantity times the unit value when both are present, and 0 when either is missing |
| Egreso.Retention | src/lib/pdf_egreso.js:38 | the retention is the integer nearest to pct·gross/100, with halves rounded up |
| Egreso.Net | src/lib/pdf_egreso.js:39 | net plus retention is the gross |
| Egreso.RetentionBounds | src/lib/pdf_egreso.js:37-39 | with 0 ≤ pct ≤ 100 and a non-negative gross, both retention and net lie in [0, gross] |
| Egreso.ExampleTwoAndAHalfPercent | src/lib/pdf_egreso.js:33-39 | 10 × 100000 at 2.5% gives gross 1000000, retention 25000 and net 975000 |
| Egreso.ExampleHalfRoundsUp | src/lib/pdf_egreso.js:38-39 | 1% of 50 retains 1 and pays 49 |
| Egreso.NombrePrestador | src/lib/pdf_egreso.js:41 | the name is "<nombres> <apellidos>" with its leading and trailing whitespace cut off: a slice between two blank runs, empty exactly when the joined text is blank, otherwise starting and ending with a non-space; names that do not start or end with whitespace are shown exactly as "<nombres> <apellidos>" |
| Egreso.JoinedNameKept | src/lib/pdf_egreso.js:41 | trim leaves "<nombres> <apellidos>" unchanged when the names do not start or end with whitespace |
| Egreso.CuentaTxt | src/lib/pdf_egreso.js:43-48 | any payment method other than "transferencia" gives "EFECTIVO"; a transfer gives a text of at least nine characters |
| Egreso.CuentaTxtIsCashUnlessTransfer | src/lib/pdf_egreso.js:43-48 | the account text is "EFECTIVO" if and only if the payment method is not "transferencia" |
| Egreso.CuentaTxtParts | src/lib/pdf_egreso.js:43-48 | for a transfer, the text is exactly bank, " · ", type, " · ", number (its length is the three parts plus six), with "-" for each missing part, so three missing parts give "- · - · -" |
| Egreso.Find | src/lib/pdf_egreso.js:51-56 | the result is the first agreement whose code or full label equals the value; there is none exactly when no agreement matches |
| Egreso.ConvenioTxt | src/lib/pdf_egreso.js:58-60 | the agreement text is never empty |
| Egreso.KnownCode | src/lib/pdf_egreso.js:51-60 | every agreement's code renders as its "code – name" label; for example "2975-2024" renders as "2975-2024 – Ministerio de Cultura" |
| Egreso.KnownLabel | src/lib/pdf_egreso.js:51-60 | every agreement's full label renders as itself |
| Egreso.MissingConvenio | src/lib/pdf_egreso.js:58-60 | a missing or empty agreement renders as "-" |
| Egreso.UnknownConvenio | src/lib/pdf_egreso.js:51-60 | a present value that matches no agreement renders unchanged, or "-" when it is empty |
| Egreso.UnknownCodeExample | src/lib/pdf_egreso.js:51-60 | the unknown code "2020-2021" renders as itself |
| Egreso.LabelsMatchOnlyThemselves | src/lib/pdf_egreso.js:10-13 | each known label is found at its own agreement, and no other agreement matches it |
| Egreso.ConvenioTxtIdempotent | src/lib/pdf_egreso.js:51-60 | rendering an already rendered agreement text gives the same text |
| Egreso.NombrePrestadorMissing | src/lib/pdf_egreso.js:41 | a provider with no names has an empty name once trimmed |
| Egreso.AccountCode | src/lib/pdf_egreso.js:182 | the code is "1105" if and only if the payment is "efectivo", and "1110" otherwise |
| Egreso.Ledger | src/lib/pdf_egreso.js:166-197 | four rows: account 28150510 debiting the gross; the retention code and label with the retention as partial and credit; the payment account (1105/1110) with the net as partial and credit; and "Suma iguales:" with the gross as debit and credit; the remaining amount cells are blank |
| Egreso.LedgerBalances | src/lib/pdf_egreso.js:166-197 | the table has four rows; over the three entry rows the debits, the credits (retention + net) and the partials each add up to the gross; the "Suma iguales:" row shows the gross as both debit and credit |
| Egreso.PaymentRowAccount | src/lib/pdf_egreso.js:181-189 | the payment row carries 1105 exactly for cash payments and 1110 otherwise |
| Egreso.SumaEnLetras | src/lib/pdf_egreso.js:158-159 | the words line spells the net value itself: rounding an integer net changes nothing |
| Egreso.MarcaAnulado | src/lib/pdf_egreso.js:274 | the watermark flag holds if and only if `anulado` is the boolean true |
| Egreso.ProveedorPanel | src/lib/pdf_egreso.js:116-121 | four rows: the trimmed provider name, the cédula or "-", the telephone or "No registrado", and the agreement text; each present field is shown as given |
| Egreso.ConceptoTabla | src/lib/pdf_egreso.js:138-141 | two rows: the concept and the description, each shown as given when present and "-" when missing |
| Egreso.Voucher | src/lib/pdf_egreso.js:102-197 | the voucher carries its number; the provider panel shows the trimmed name, the cédula (or "-"), the telephone (or "No registrado") and the agreement text; the concept table shows the concept and description (or "-"); the ledger table is the ledger of the expense, whose payment row's partial is the net; the words line spells the net; the watermark follows `anulado === true` |
| Egreso.VoucherLedgerBalances | src/lib/pdf_egreso.js:166-197 | the voucher's own ledger table balances: debits, credits and partials of the three entry rows each add up to the gross, and the totals row shows the gross |
| Egreso.WatermarkStrict | src/lib/pdf_egreso.js:274 | the voucher's watermark is drawn if and only if `anulado` is the boolean true; the truthy "true" and 1 do not draw it |
| Egreso.StoragePath | src/lib/pdf_egreso.js:295-298 | the key ends in ".pdf"; with a non-empty agreement the key is exactly the agreement, "/", then "egreso_<n>.pdf" |
| Egreso.StoragePathDefaultFolder | src/lib/pdf_egreso.js:295-298 | without an agreement the key is "general/egreso_<n>.pdf" |
| Egreso.StoragePathInjective | src/lib/pdf_egreso.js:295-298 | for one agreement, equal keys imply equal voucher numbers |
| Egreso.StoragePathGeneralCollision | src/lib/pdf_egreso.js:295-298 | a voucher without agreement and one whose agreement is "general" get the same key for the same number |
| Egreso.Upload | src/lib/pdf_egreso.js:300-305 | an upsert adds or replaces the key with the new document and leaves every other key as it was |
| Egreso.RegenerateReplaces | src/lib/pdf_egreso.js:295-305 | uploading a voucher again under the same number and agreement replaces the stored document and adds no key |
| Ingreso.GuessFormatNoPath | src/lib/pdf/ingresoPdf.js:23-26 | the default empty path gives "PNG" |
| Ingreso.GuessFormat | src/lib/pdf/ingresoPdf.js:23-27 | the answer is always "JPEG" or "PNG" |
| Ingreso.GuessFormatByExtension | src/lib/pdf/ingresoPdf.js:24-25 | the answer is "JPEG" if and only if the path's last four or five characters, lower-cased, are ".jpg" or ".jpeg" |
| Ingreso.GuessFormatIgnoresCase | src/lib/pdf/ingresoPdf.js:24 | a path, its lower-case and its upper-case spellings get the same format |
| Ingreso.GuessFormatUpperCase | src/lib/pdf/ingresoPdf.js:24-25 | "LOGO.JPEG" gives "JPEG" |
| Ingreso.GuessFormatJpg | src/lib/pdf/ingresoPdf.js:25 | "/images/logo.jpg" gives "JPEG" |
| Ingreso.GuessFormatPng | src/lib/pdf/ingresoPdf.js:24-26 | "/images/logo.png" gives "PNG", and only the last extension counts: "logo.jpg.png" gives "PNG" |
| Ingreso.OrZero | src/lib/pdf/ingresoPdf.js:146-151 | a missing number counts as 0, and a present one as itself |
| Ingreso.Totales | src/lib/pdf/ingresoPdf.js:140-153 | three rows: each present amount, and a present tax percentage in the label, is shown as itself, and each missing one as 0 |
| Ingreso.EnLetras | src/lib/pdf/ingresoPdf.js:174-177 | the words line reads "cero pesos" when the deposited amount is missing, and otherwise spells that amount rounded |
| Ingreso.Observaciones | src/lib/pdf/ingresoPdf.js:183-187 | the block is present if and only if the observations are present and not all whitespace, and then holds them as given |
| Ingreso.MarcaAnulado | src/lib/pdf/ingresoPdf.js:207 | the watermark flag holds if and only if `anulado` is the boolean true |
| Ingreso.BuildIngresoPdf | src/lib/pdf/ingresoPdf.js:72-207 | the voucher carries its number; its entity and concept panels, totals, words line and observations block are those of the record; the words line spells, rounded, the deposited amount shown in the third totals row; the watermark follows `anulado === true` |
| Ingreso.MissingAmountsAreZero | src/lib/pdf/ingresoPdf.js:140-177 | with every amount missing, the totals show 0 and the words line reads "cero pesos" |
| Ingreso.EnLetrasIgnoresTotal | src/lib/pdf/ingresoPdf.js:174-177 | the words line depends only on the deposited amount (valorConsignado) and spells it when present |
| Ingreso.EntidadPanel | src/lib/pdf/ingresoPdf.js:86-90 | three rows, each value non-empty: the entity name, NIT and agreement, each shown as given when present and "-" when missing |
| Ingreso.ConceptoPanel | src/lib/pdf/ingresoPdf.js:111-117 | three rows, each value non-empty: the concept and payment method as given or "-", and the bank line "<bank or -> / <account or ->", so "- / -" when both are missing |
| Ingreso.ObservacionesIffNotBlank | src/lib/pdf/ingresoPdf.js:183-187 | the observations block appears if and only if the observations are present and not all whitespace, and then shows them untrimmed |
| Ingreso.ObservacionesExamples | src/lib/pdf/ingresoPdf.js:183 | whitespace-only and empty observations are dropped; " pago parcial " is kept as given |
| Ingreso.WatermarkStrict | src/lib/pdf/ingresoPdf.js:207 | the watermark is drawn if and only if `anulado` is the boolean true; the truthy "true" and 1 do not draw it |
| PrivateHeader.PermisosOf | src/components/privateHeader.jsx:56 | a role outside the table gets no permission; a known role gets its table entry |
| PrivateHeader.CoordinadorPermisos | src/components/privateHeader.jsx:10-18 | the coordinator may see everything except the roles administration |
| PrivateHeader.ContadoraPermisos | src/components/privateHeader.jsx:19-27 | the accountant's flags as in the table |
| PrivateHeader.AdministradorPermisos | src/components/privateHeader.jsx:28-36 | the administrator's flags as in the table |
| PrivateHeader.IngenieraPermisos | src/components/privateHeader.jsx:37-46 | the engineer's flags as in the table |
| PrivateHeader.KnownRoles | src/components/privateHeader.jsx:9-47 | the table holds exactly the four roles |
| PrivateHeader.Candidates | src/components/privateHeader.jsx:59-65 | six candidates; candidate k is item k when its flag is set, and nothing otherwise |
| PrivateHeader.FilterPresent | src/components/privateHeader.jsx:67 | the filter keeps exactly the present items and is never longer than its input |
| PrivateHeader.FilterAppend | src/components/privateHeader.jsx:67 | filtering a concatenation is concatenating the filtered parts, so order and repetitions are kept |
| PrivateHeader.FilterSingletons | src/components/privateHeader.jsx:67 | a present item is kept and a missing one dropped |
| PrivateHeader.ItemsDistinct | src/components/privateHeader.jsx:60-65 | the six hrefs are distinct |
| PrivateHeader.EntryIffFlag | src/components/privateHeader.jsx:59-67 | an entry is on the menu if and only if its permission flag is set |
| PrivateHeader.Menu | src/components/privateHeader.jsx:59-67 | at most six entries, each one of the six menu items |
| PrivateHeader.Nav | src/components/privateHeader.jsx:56-67 | an unknown or missing role gets an empty menu; item k is on a role's menu if and only if the role is known and its flag k is set |
| PrivateHeader.MenuInOrder | src/components/privateHeader.jsx:59-67 | the menu has at most six entries, in the fixed order prestadores, egresos, comprobantes, ingresos, convenios, panel |
| PrivateHeader.RolesAdminUnused | src/components/privateHeader.jsx:9-67 | no role has rolesAdmin, and the flag never changes the menu |
| PrivateHeader.KnownRolesSeeComprobantesAndPanel | src/components/privateHeader.jsx:9-47 | every known role sees "/comprobantes" and "/dashboard" |
| PrivateHeader.ContadoraRestricted | src/components/privateHeader.jsx:19-27 | the accountant does not see "/prestadores" or "/convenios" |
| PrivateHeader.IngenieraRestricted | src/components/privateHeader.jsx:37-46 | the engineer does not see "/egresos" or "/ingresos" |
| PrivateHeader.FullMenu | src/components/privateHeader.jsx:59-67 | with every flag set, the menu is the six items in order |
| PrivateHeader.CoordinatorSeesAll | src/components/privateHeader.jsx:9-67 | the coordinator's menu is the six items in order |
| PrivateHeader.Active | src/components/privateHeader.jsx:138 | an active menu item is the only item whose href is the pathname |
| PrivateHeader.AtMostOneActive | src/components/privateHeader.jsx:138 | at most one menu entry is active for a pathname |
| Slideshow.EncodeURIComponent | src/components/PasadosSlideshow.jsx:7 | the output is never shorter than the input and holds only unreserved characters and "%" |
| Slideshow.EncodeChar | src/components/PasadosSlideshow.jsx:7 | an unreserved character is kept; any other becomes at least three characters |
| Slideshow.PercentByte | src/components/PasadosSlideshow.jsx:7 | a byte becomes "%" and two upper-case hex digits that read back as the byte |
| Slideshow.EncodeIsUriSafe | src/components/PasadosSlideshow.jsx:7 | the output has only unreserved characters and "%", and never a "/" |
| Slideshow.EncodeLength | src/components/PasadosSlideshow.jsx:7 | the output is never shorter than the input, and has the same length exactly when every character is unreserved |
| Slideshow.EncodeUnchangedIff | src/components/PasadosSlideshow.jsx:7 | a segment is unchanged if and only if all its characters are unreserved |
| Slideshow.EncodeConcat | src/components/PasadosSlideshow.jsx:7 | the encoding of a concatenation is the concatenation of the encodings |
| Slideshow.DecodeEncode | src/components/PasadosSlideshow.jsx:7 | percent-decoding the output gives back the UTF-8 bytes of the input |
| Slideshow.EncodeExamples | src/components/PasadosSlideshow.jsx:7 | " " becomes "%20", "/" becomes "%2F" and "ñ" becomes "%C3%B1" |
| Slideshow.EncodePath | src/components/PasadosSlideshow.jsx:5-10 | encodePath keeps the segment count, leaves every segment but the last unchanged and encodes the last |
| Slideshow.EncodePathUnchanged | src/components/PasadosSlideshow.jsx:5-10 | a path whose last segment is all unreserved characters is unchanged |
| Slideshow.EncodeImagesPath | src/components/PasadosSlideshow.jsx:5-10 | under "/images/" only the file name is encoded |
| Slideshow.EncodeAroundSpace | src/components/PasadosSlideshow.jsx:4-7 | a space between two runs of unreserved characters becomes "%20" and the runs are kept |
| Slideshow.TallerExample | src/components/PasadosSlideshow.jsx:17-20 | "/images/taller 3.jpg" becomes "/images/taller%203.jpg" |
| Slideshow.PlainNameExample | src/components/PasadosSlideshow.jsx:13-20 | "/images/P19.jpg" is unchanged |
| Slideshow.EncodeAll | src/components/PasadosSlideshow.jsx:12-20 | `map(encodePath)` keeps the number of paths and encodes each in place |
| Slideshow.PhotosCount | src/components/PasadosSlideshow.jsx:12-20 | there are seven photos |
| Slideshow.FirstPhotoPlain | src/components/PasadosSlideshow.jsx:13-20 | the first photo is "/images/P19.jpg", unchanged |
| Slideshow.FifthPhotoEncoded | src/components/PasadosSlideshow.jsx:17-20 | the fifth photo is "/images/taller%203.jpg" |
| Slideshow.NextIndex | src/components/PasadosSlideshow.jsx:26 | from any index of at least -1 the next index lies in [0, n) |
| Slideshow.PrevIndex | src/components/PasadosSlideshow.jsx:25 | from any index of at least 1 − n the previous index lies in [0, n) |
| Slideshow.NextStep | src/components/PasadosSlideshow.jsx:26 | next stays in [0, n), steps by one and wraps n−1 to 0 |
| Slideshow.PrevStep | src/components/PasadosSlideshow.jsx:25 | prev stays in [0, n), steps back by one and wraps 0 to n−1 |
| Slideshow.ArrowsAreInverse | src/components/PasadosSlideshow.jsx:25-26 | prev(next(v)) = v and next(prev(v)) = v |
| Slideshow.NextTimesIsSum | src/components/PasadosSlideshow.jsx:26 | k presses of next from v land on (v + k) mod n |
| Slideshow.FullTurn | src/components/PasadosSlideshow.jsx:26 | n presses of next come back to the start |
| Slideshow.Carousel.constructor | src/components/PasadosSlideshow.jsx:23 | the index starts at 0 |
| Slideshow.Carousel.Next | src/components/PasadosSlideshow.jsx:26 | the index becomes next of the old index and stays valid |
| Slideshow.Carousel.Prev | src/components/PasadosSlideshow.jsx:25 | the index becomes prev of the old index and stays valid |
| Slideshow.Carousel.GoTo | src/components/PasadosSlideshow.jsx:63 | a dot click sets the index to that dot |
| Slideshow.Carousel.Current | src/components/PasadosSlideshow.jsx:36 | the photo on screen is the encoded form of the idx-th path of the list |
| Slideshow.CurrentExamples | src/components/PasadosSlideshow.jsx:12-20 | at index 0 the carousel shows "/images/P19.jpg", and at index 4 "/images/taller%203.jpg" |
| Slideshow.ExactlyOneDot | src/components/PasadosSlideshow.jsx:59-66 | in a valid state exactly one dot is active |

## Left out

- fmtMoney (src/lib/format.js:4-12) is not modelled: it calls the `es-CO` locale formatter. Money cells hold the amount passed to fmtMoney, not the text it prints (which is rounded to whole pesos).
- The date line of both vouchers (`Fecha: …`) is not modelled, and the voucher records omit it. It is formatted with date-fns and defaults to `Date.now()`, which are locale and clock calls.
- The jsPDF and autoTable drawing is not modelled: coordinates, fonts, colours, opacity and the signature table. The logo fetch and FileReader are not modelled either. A voucher is modelled as the record of the blocks and labels the page shows.
- Supabase I/O is reduced to the key and an upsert into a map. The upload error path, `getPublicUrl` and the `pdf_url` update are network calls and are not modelled.
- Floating point is not modelled. `Number(...)` coercion, NaN, and `Math.round` on binary floats at half-way points are replaced by exact integers and rationals.
- Format.NumeroALetras: the input is an exact rational, so `n ?? 0` on a missing argument and non-numeric arguments are not modelled.
- Egreso.NumberOrZero: fractional quantities and unit values are not modelled; both are integers in the model.
- Egreso.Find: `String(...)` on a non-string agreement value is not modelled; the value is a string or missing.
- PrivateHeader.PermisosOf: role names that are inherited object keys (such as "constructor") are not modelled. In JavaScript such a key finds a prototype member instead of undefined.
- Case mapping (`toLowerCase`, `toUpperCase`) is modelled on ASCII letters only. Other letters are left unchanged.
- Slideshow.EncodeChar: a lone surrogate is not modelled. JavaScript throws URIError on one, but Dafny characters are Unicode scalar values and cannot hold one.
- The carousel's 8-second `setInterval` auto-advance and its cleanup are not modelled. This is timer plumbing; each tick is one `Carousel.Next`.
- The carousel's alt text is not modelled.
- Slideshow.Carousel.GoTo requires an index in range: dots are drawn only for the indices of the photo list.
- The number-to-words tables are modelled as functions over the digit, not as arrays. Index 10 and above of the hundreds table reads as "undefined", as JavaScript prints a missing array entry.
- Egreso.CuentaTxt is computed by the voucher code but never drawn. It is modelled with its properties, but it is not part of the voucher record.
- The thousands example (for instance 2500) is not stated as a lemma. It is covered by Format.GroupsInOrder and the group lemmas.
- The voucher number (`consecutivo`) is modelled as a natural number printed in decimal.
- PrivateHeader.CoordinatorSeesAll states the menu entry by entry, plus its length, rather than as one sequence equality.
- The storage folder is the agreement text or "general", so a voucher without agreement and one whose agreement is the text "general" share a key and overwrite each other (Egreso.StoragePathGeneralCollision).
