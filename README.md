# simple_inventario backend, modelled in Dafny

This project models the Rust backend of simple_inventario, a small point-of-sale and
inventory desktop application (`src-tauri/src/main.rs`). It covers the backend's own logic:

- **Receipt numbering** (`obtener_siguiente_numero`). It scans the receipts folder for
  `<date stamp>-<n>.pdf` names and proposes one above the largest `n` of the day.
- **Receipt layout** (`crear_pdf_recibo`). It truncates product names, formats fixed-width
  rows, and places rows, page headers and the total, starting a new page whenever the next line
  would drop below the bottom margin.
- **Receipt command** (`generar_recibo_ventas`). It refuses empty requests, requires an
  administrator for a day closure, then numbers, titles, lays out and writes the receipt.
- **Session flag file** (`crear_archivo_admin` / `leer_estado_admin`). This is the
  `admin=1` / `admin=0` text that a login writes and the receipt command reads back.
- **Login and password checks** (`validar_login`, `validar_admin_password`,
  `validar_password_admin`), against the `users` table.
- **Stock changes** (`registrar_venta`, `registrar_compra`, `actualizar_inventario`), against
  the `inventario` table.

Modules:

| file | module | content |
|---|---|---|
| `wrappers.dfy` | `Wrappers` | `Option`, `Result` and `Outcome`, the shapes of the backend's `Option<T>`, `Result<T, String>` and `Result<(), String>` |
| `rust_text.dfy` | `RustText` | the Rust string operations the backend relies on: `starts_with`, `ends_with`, `trim_end_matches`, `split`, `trim`, `parse::<u32>`, integer formatting, `{:<w}`/`{:>w}` padding, `str::len` as a UTF-8 byte count |
| `receipt_numbering.dfy` | `ReceiptNumbering` | the number allocator as a loop (`NextNumber`) against its specification `MaxCounted` |
| `receipt_layout.dfy` | `ReceiptLayout` | the drawing pass as a loop (`PlaceAll`) against its specification `Layout`, and the closed form that the page guarantees are proved from |
| `admin_flag.dfy` | `AdminFlag` | writing and parsing the session flag |
| `credentials.dfy` | `Credentials` | the `users` table, login and administrator checks |
| `inventory.dfy` | `Inventory` | the `inventario` table as a map, and the class `Inventory` whose methods update it |
| `backend.dfy` | `Backend` | the class `Backend`, holding the state the commands share, with the login and receipt commands |

Floating-point money amounts only ever reach the receipt as the text `format_money` makes of
them. The model therefore treats them as opaque strings (`Money`). Every layout coordinate in
the source is a whole number of millimetres, so its `f32` arithmetic is exact and is modelled
with integers.

## Model

| member | source | states |
|---|---|---|
| RustText.TrimEndMatches | src-tauri/src/main.rs:169 | the result is a prefix of the name that no longer ends with the pattern, and a name not ending with it is unchanged (the suffix is stripped repeatedly) |
| RustText.TrimEndMatchesCopies | src-tauri/src/main.rs:169 | what is removed is whole copies of the pattern and nothing else: the name is the result followed by `k` copies of the pattern, for some `k` |
| RustText.Split | src-tauri/src/main.rs:170 | `split` yields one more piece than there are separators, and no piece contains the separator |
| RustText.SplitJoin | src-tauri/src/main.rs:170 | joining the pieces with the separator gives back the text |
| RustText.SplitConcat | src-tauri/src/main.rs:554 | splitting `a + sep + b` gives the pieces of `a`, then the pieces of `b` |
| RustText.SplitAround | src-tauri/src/main.rs:554 | the same, read as the piece count, the last piece and the two halves |
| RustText.TrimStart | src-tauri/src/main.rs:554 | the result is a suffix of the text that does not start with whitespace |
| RustText.TrimEnd | src-tauri/src/main.rs:554 | the result is a prefix of the text that does not end with whitespace |
| RustText.TrimStartAt | src-tauri/src/main.rs:554 | trimming the start stops at the first non-whitespace character |
| RustText.TrimEndAt | src-tauri/src/main.rs:554 | trimming the end stops at the last non-whitespace character |
| RustText.TrimStartOfTrimEnd | src-tauri/src/main.rs:558 | trimming the two ends commutes |
| RustText.BlankTrimmed | src-tauri/src/main.rs:554 | a text of whitespace only trims to nothing from either end |
| RustText.TrimEndCons | src-tauri/src/main.rs:554 | trimming the end of a text with a character in front keeps that character unless everything after it trims away |
| RustText.TrimEndBlankTail | src-tauri/src/main.rs:150 | trimming the end removes a blank tail entirely |
| RustText.LeadingBlankDropped | src-tauri/src/main.rs:554 | a whitespace character in front of a text is gone once both ends are trimmed |
| RustText.TrimKeeps | src-tauri/src/main.rs:558 | a text with no whitespace at either end is its own trim |
| RustText.TrimEndIdempotent | src-tauri/src/main.rs:558 | trimming the end twice is the same as trimming it once |
| RustText.TrimStartDropsBlanks | src-tauri/src/main.rs:554 | trimming the start removes whitespace only |
| RustText.TrimEndDropsBlanks | src-tauri/src/main.rs:554 | trimming the end removes whitespace only |
| RustText.TrimCharacterised | src-tauri/src/main.rs:150 | `trim` gives the piece of the text between its leading and trailing whitespace: everything removed is whitespace, and the result neither starts nor ends with whitespace |
| RustText.TrimAround | src-tauri/src/main.rs:554 | trimming `a=b` gives `a` trimmed at the start, the `=`, and `b` trimmed at the end |
| RustText.TrimOfTrimEnd | src-tauri/src/main.rs:558 | trimming a text already trimmed at the end is trimming the text |
| RustText.SplitPair | src-tauri/src/main.rs:555 | a text with a single separator splits into the two pieces around it |
| RustText.StartsWithSplits | src-tauri/src/main.rs:166 | `starts_with` holds exactly when the text is the prefix followed by the rest |
| RustText.EndsWithSplits | src-tauri/src/main.rs:166 | `ends_with` holds exactly when the text is the rest followed by the suffix |
| RustText.ParseU32 | src-tauri/src/main.rs:172 | `parse::<u32>` succeeds exactly when the text, less one optional leading `+`, is one or more digits whose value is at most 2^32-1, and then returns that value |
| RustText.ParseRejects | src-tauri/src/main.rs:172 | a non-digit anywhere except a leading `+` is rejected, and so are the empty text and a lone `+` |
| RustText.ParseDecimal | src-tauri/src/main.rs:172 | the decimal text of `n` parses back to `n` exactly when `n` fits in a u32 |
| RustText.ParseSignAndZeros | src-tauri/src/main.rs:172 | a leading `+` and leading zeros do not change the parsed value |
| RustText.DecimalValue | src-tauri/src/main.rs:479 | the decimal text `{}` prints for `n` has value `n` |
| RustText.IntToString | src-tauri/src/main.rs:417-420 | a non-negative integer prints as its decimal digits, a negative one as `-` followed by the digits of its magnitude; the digits read back as the value |
| RustText.Decimal | src-tauri/src/main.rs:479 | `{}` prints a natural number as digits only, with a leading `0` only for 0 |
| RustText.Spaces | src-tauri/src/main.rs:232-239 | the filler is `n` space characters |
| RustText.PadRight | src-tauri/src/main.rs:232-239 | `{:<w}` keeps the text at the left and fills with spaces up to width `w`; a wider text is unchanged |
| RustText.PadLeft | src-tauri/src/main.rs:232-239 | `{:>w}` keeps the text at the right and fills with spaces in front up to width `w`; a wider text is unchanged |
| RustText.Utf8LenAppend | src-tauri/src/main.rs:225 | byte lengths add up |
| RustText.Utf8LenAtMostFour | src-tauri/src/main.rs:225 | a text takes at most four bytes per character |
| RustText.CharsAtMostBytes | src-tauri/src/main.rs:225 | a text has at least as many bytes as characters, and exactly as many iff it is ASCII |
| ReceiptNumbering.CountedNumber | src-tauri/src/main.rs:165-176 | a name counts only when it starts with the stamp and ends with `.pdf`, and what it counts is at most 2^32-1 |
| ReceiptNumbering.MaxCounted | src-tauri/src/main.rs:162-181 | the running maximum never exceeds 2^32-1 |
| ReceiptNumbering.MaxCountedIsMax | src-tauri/src/main.rs:162-181 | the running maximum bounds every counted number and is one of them, or 0 when no name counts |
| ReceiptNumbering.CountedMaxUnique | src-tauri/src/main.rs:162-181 | the largest counted number is unique, so the loop's result depends on nothing else |
| ReceiptNumbering.MaxCountedDependsOnlyOnCounted | src-tauri/src/main.rs:163-164 | listing order, duplicates and skipped names do not change the result |
| ReceiptNumbering.SkippedNameIgnored | src-tauri/src/main.rs:165-167 | inserting a skipped name anywhere in the listing leaves the result unchanged |
| ReceiptNumbering.NextNumber | src-tauri/src/main.rs:161-182 | the loop returns 1 when the folder cannot be read, and otherwise one above the largest counted number; the result lies in 1..2^32-1 and exceeds every counted number |
| ReceiptNumbering.ScanStep | src-tauri/src/main.rs:165-176 | one more entry raises the running maximum to the number it counts, when that is larger |
| ReceiptNumbering.FileNameShape | src-tauri/src/main.rs:479 | a receipt name is the stamp, `-`, the decimal number and `.pdf`, in that order |
| ReceiptNumbering.AboveMaxNotListed | src-tauri/src/main.rs:161-182 | a name counting more than the folder's maximum is not in the folder |
| ReceiptNumbering.IssuedNameCounted | src-tauri/src/main.rs:479 | a name the backend issues is counted with exactly its own number |
| ReceiptNumbering.NextNameIsFresh | src-tauri/src/main.rs:478-480 | the proposed name is not already in the listed folder |
| ReceiptNumbering.NumbersAdvance | src-tauri/src/main.rs:478-480 | once the proposed receipt is in the folder, the next proposal is one higher |
| ReceiptNumbering.OtherDayIgnored | src-tauri/src/main.rs:166 | receipts of another day, with a stamp of the same length, never count |
| ReceiptNumbering.NothingCountsGivesOne | src-tauri/src/main.rs:162-181 | a folder in which no name counts gives number 1 |
| ReceiptNumbering.AdvanceFrom | src-tauri/src/main.rs:172-174 | adding the name numbered one past the maximum raises the maximum by one |
| ReceiptNumbering.IssuedNames | src-tauri/src/main.rs:479 | receipts 1 to `k` of a day are `k` names |
| ReceiptNumbering.IssuedReceiptsGiveNext | src-tauri/src/main.rs:161-182 | receipts 1 to `k` of a day make the next number `k + 1` |
| ReceiptNumbering.IssuedReceiptsOtherDay | src-tauri/src/main.rs:166 | none of those receipts counts for another day with a stamp of the same length |
| ReceiptNumbering.IssuedReceiptsLeaveOtherDayAtOne | src-tauri/src/main.rs:161-182 | so the other day's next number is still 1 |
| ReceiptNumbering.NoDashSkipped | src-tauri/src/main.rs:170-171 | a stem without `-` is skipped |
| ReceiptNumbering.CountedIsLastSegment | src-tauri/src/main.rs:170-172 | a qualifying name counts exactly what its text after the last `-` parses to |
| ReceiptNumbering.NameWithoutDashSkipped | src-tauri/src/main.rs:171 | `20240101.pdf` is skipped |
| ReceiptNumbering.NonNumericSkipped | src-tauri/src/main.rs:172 | `20240101-abc.pdf` is skipped |
| ReceiptNumbering.OtherFileSkipped | src-tauri/src/main.rs:166 | `random.txt` is skipped |
| ReceiptNumbering.PlainPrefixCounted | src-tauri/src/main.rs:166 | `20240101x-3.pdf` passes the plain prefix test and counts as 3 |
| ReceiptNumbering.RepeatedSuffixCounted | src-tauri/src/main.rs:169 | `20240101-5.pdf.pdf` loses both suffixes and counts as 5 |
| ReceiptLayout.TruncateName | src-tauri/src/main.rs:225-231 | a name of at most 28 UTF-8 bytes is printed unchanged, whatever its characters; a printed name never exceeds 28 characters |
| ReceiptLayout.AsciiNameTruncation | src-tauri/src/main.rs:225-231 | an ASCII name of up to 28 characters is kept; a longer one becomes its first 25 characters plus `...`, exactly 28 |
| ReceiptLayout.ShortNameKeepsItsCharacters | src-tauri/src/main.rs:225-231 | a name of at most 25 characters is never cut |
| ReceiptLayout.WideShortNameGetsEllipsis | src-tauri/src/main.rs:225-231 | the test counts bytes while the cut counts characters, so a short name of more than 28 bytes keeps every character and still gets `...` |
| ReceiptLayout.LongNameCut | src-tauri/src/main.rs:225-231 | a cut name is exactly its first 25 characters plus `...` |
| ReceiptLayout.RowColumns | src-tauri/src/main.rs:232-239 | when the values fit their widths, a row is 60 characters with fixed columns: id from 0, name from 5, and quantity, price and subtotal right-aligned to 42, 50 and 60 |
| ReceiptLayout.FieldColumns | src-tauri/src/main.rs:232-239 | the column positions of a row hold for any field texts within the widths 4, 32, 4, 7 and 9 |
| ReceiptLayout.FormatRow | src-tauri/src/main.rs:232-239 | a row is at least 60 characters, and exactly 60 when the id and the quantity print in at most 4 characters, the price in at most 7 and the subtotal in at most 9 |
| ReceiptLayout.FieldWidths | src-tauri/src/main.rs:232-239 | the same width rule for any field texts with a name of at most 32 characters |
| ReceiptLayout.Rows | src-tauri/src/main.rs:224-239 | one row per sale, in order: row `i` is sale `i` formatted |
| ReceiptLayout.FooterText | src-tauri/src/main.rs:261 | the footer starts with `Total: ` and ends with the amount |
| ReceiptLayout.PlaceLine | src-tauri/src/main.rs:241-250 | a row goes on the same page exactly when it stays above `min_y`; otherwise a header of the next page comes first; either way the row is drawn last, at or above `min_y` |
| ReceiptLayout.PlaceFooter | src-tauri/src/main.rs:252-265 | the footer is drawn last, on the same page exactly when 10 mm more stay above `min_y`, at or above `min_y` |
| ReceiptLayout.Layout | src-tauri/src/main.rs:222-266 | everything the receipt draws ends with the footer, at or above `min_y` |
| ReceiptLayout.RenderReceipt | src-tauri/src/main.rs:184-277 | the document is the layout of the sales' rows and the `Total:` footer; its rows are the sales' rows in order; every row and the footer are drawn at or above 18 mm |
| ReceiptLayout.PlaceAll | src-tauri/src/main.rs:222-266 | the drawing loop produces exactly the layout `Layout`, with the rows in order and above the bottom margin |
| ReceiptLayout.LinesPerPageIsCapacity | src-tauri/src/main.rs:196-220 | from the margins and steps, a page holds 25 rows, and 23 rows still leave room for the footer |
| ReceiptLayout.PageStep | src-tauri/src/main.rs:241-249 | how the rows-on-page and page counters move from one row to the next |
| ReceiptLayout.PlaceLineStep | src-tauri/src/main.rs:241-250 | placing row `i` from the closed-form cursor gives the closed-form cursor after `i + 1` rows |
| ReceiptLayout.PlaceLinesClosedForm | src-tauri/src/main.rs:240-249 | the cursor after `k` rows is the closed form: 25 rows a page, 5 mm apart under the header |
| ReceiptLayout.GridRowsWellPlaced | src-tauri/src/main.rs:240-249 | row `i` goes on page `i/25 + 1` at its slot's height |
| ReceiptLayout.GridRowsTexts | src-tauri/src/main.rs:240-249 | the closed form draws the rows in order |
| ReceiptLayout.GridRowsHeaders | src-tauri/src/main.rs:241-246 | the closed form draws one header per page, numbered 1, 2, ... |
| ReceiptLayout.LayoutClosedForm | src-tauri/src/main.rs:222-266 | the layout is the closed form of the rows followed by the footer |
| ReceiptLayout.FooterPlacement | src-tauri/src/main.rs:252-259 | the footer gets a page of its own exactly when the last page holds more than 23 rows; otherwise it sits 10 mm under the last row |
| ReceiptLayout.FooterRoom | src-tauri/src/main.rs:252 | the footer fits under `l` rows iff `l <= 23` |
| ReceiptLayout.LayoutFloor | src-tauri/src/main.rs:241-259 | every row and the footer are drawn at or above `min_y` = 18 mm |
| ReceiptLayout.LinesInOrder | src-tauri/src/main.rs:224-250 | each sale's row is drawn exactly once, in input order |
| ReceiptLayout.LinePlacement | src-tauri/src/main.rs:240-249 | every drawn row has its sale's text, its page and its height |
| ReceiptLayout.AtMostLinesPerPage | src-tauri/src/main.rs:241-246 | no page holds more than 25 rows |
| ReceiptLayout.FooterOnceAtEnd | src-tauri/src/main.rs:252-266 | the footer is drawn exactly once, as the last event |
| ReceiptLayout.HeadersNumberThePages | src-tauri/src/main.rs:222-256 | the document opens with the header of page 1, and headers number the pages 1..PageCount in order, so a new page starts only when a row or the footer needs it |
| ReceiptLayout.FooterTailEvents | src-tauri/src/main.rs:252-259 | after the rows, nothing but the footer and, only when needed, one more header is drawn |
| ReceiptLayout.GridRowsFirst | src-tauri/src/main.rs:222 | the first event is the header of page 1 |
| ReceiptLayout.PageCountExamples | src-tauri/src/main.rs:241-256 | 0 or 23 rows take 1 page; 24, 25 or 26 rows take 2; 60 rows take 3 |
| AdminFlag.EncodeAdminFlag | src-tauri/src/main.rs:535-537 | the flag text has one `=` and ends in `1` for an administrator and `0` otherwise |
| AdminFlag.FlagValue | src-tauri/src/main.rs:558-562 | only `1` (true) and `0` (false) are flag values |
| AdminFlag.ParseAdminFlag | src-tauri/src/main.rs:551-563 | a flag is read only from text with exactly one `=` after trimming |
| AdminFlag.ReadAdminFlag | src-tauri/src/main.rs:551-553 | a missing or unreadable file gives no flag |
| AdminFlag.ParseIgnoresKey | src-tauri/src/main.rs:554-562 | the key is never checked: `key=value` reads as the trimmed value alone |
| AdminFlag.NoSeparatorUnread | src-tauri/src/main.rs:554-557 | a text without `=` is not a flag |
| AdminFlag.CutFlagUnread | src-tauri/src/main.rs:544-563 | the flag text cut short before its last character is not a flag |
| AdminFlag.WriteAdminFlag | src-tauri/src/main.rs:535-549 | `fs::write` leaves the old file when it never starts, and otherwise a prefix of the flag text: the whole text reads back as the flag, a text cut short reads as no flag |
| AdminFlag.FlagRoundTrip | src-tauri/src/main.rs:535-563 | what a login writes reads back as the same flag |
| AdminFlag.WrongSeparatorCount | src-tauri/src/main.rs:555-557 | zero, or two or more, `=` give no flag |
| AdminFlag.WhitespaceIgnored | src-tauri/src/main.rs:554-562 | blanks on either side of the `1` or `0` after the `=` are ignored |
| AdminFlag.AnyKeyAccepted | src-tauri/src/main.rs:554-562 | `key=1` and `key=0` are read as flags whatever the key |
| Credentials.AdminMatches | src-tauri/src/main.rs:133-139 | the count is positive iff some user has `Admin = 1` and exactly that password |
| Credentials.ValidateAdminPassword | src-tauri/src/main.rs:128-146 | passes iff some administrator has exactly that password (no trimming); fails otherwise with "Clave de administrador incorrecta" |
| Credentials.ValidatePasswordCommand | src-tauri/src/main.rs:148-151 | the command trims the password before the same check |
| Credentials.AuthorizeClosure | src-tauri/src/main.rs:467-476 | passes iff the request is not a day closure, or the session flag says administrator, or the given password is an administrator's; a missing password fails with "Se requiere clave de administrador" |
| Credentials.ClosureDoesNotTrim | src-tauri/src/main.rs:467-476 | an administrator's password followed by blanks passes the trimming command but is refused by the day-closure check |
| Credentials.TrailingBlanksTrimmed | src-tauri/src/main.rs:150 | trimming a password followed by blanks gives the password |
| Credentials.FindUser | src-tauri/src/main.rs:312-321 | the query reads the first row with the name, or none exists |
| Credentials.AdminColumn | src-tauri/src/main.rs:317 | `Admin` is read only when it is an i32 |
| Credentials.Login | src-tauri/src/main.rs:280-354 | success iff the first row with the name has a readable `Admin` and exactly that password; administrator iff also `Admin = 1`; the message is "Login exitoso", "Contraseña incorrecta" or "Usuario no encontrado" accordingly |
| Credentials.LoginUsesFirstRow | src-tauri/src/main.rs:311-325 | a successful login matched the first row with that name |
| Credentials.FailedLoginIsNotAdmin | src-tauri/src/main.rs:335-352 | a failed login never reports an administrator |
| Credentials.ShadowedRowRefused | src-tauri/src/main.rs:311-325 | with a duplicated name, the second row's password is refused |
| Inventory.ItemById | src-tauri/src/main.rs:84-99 | the lookup finds the row with the id, or fails with the "no rows" message |
| Inventory.Sell | src-tauri/src/main.rs:407-435 | succeeds iff the amount is positive, the product exists and its stock covers the amount; the result is the row less the amount; each failure carries the source's message, with the available stock |
| Inventory.Buy | src-tauri/src/main.rs:438-459 | succeeds iff the amount is positive and the product exists; the result is the row plus the amount |
| Inventory.Store | src-tauri/src/main.rs:424-428 | the new row is written back only when the command succeeds |
| Inventory.SaleChangesOneQuantity | src-tauri/src/main.rs:424-434 | a sale changes only the sold product's quantity, by the amount sold |
| Inventory.SellThenBuyRestores | src-tauri/src/main.rs:407-459 | a sale followed by a purchase of the same amount restores the table |
| Inventory.BuyThenSellRestores | src-tauri/src/main.rs:407-459 | a purchase followed by a sale of the same amount restores the table when the stock was not negative |
| Inventory.StockStaysNonNegative | src-tauri/src/main.rs:416-424 | sales and purchases never make a quantity negative |
| Inventory.Update | src-tauri/src/main.rs:496-513 | fails with "No se encontro el registro para actualizar" iff the id is absent; otherwise only that row changes, to the given values |
| Inventory.UpdateAcceptsNegativeQuantity | src-tauri/src/main.rs:496-513 | an update can set a negative quantity, which a later sale refuses |
| Inventory.Inventory.RegisterSale | src-tauri/src/main.rs:407-435 | the answer is `Sell`'s and the table becomes `Store`'s; rows stay keyed by their id |
| Inventory.Inventory.RegisterPurchase | src-tauri/src/main.rs:438-459 | the answer is `Buy`'s and the table becomes `Store`'s; rows stay keyed by their id |
| Inventory.Inventory.UpdateItem | src-tauri/src/main.rs:496-513 | the answer and the new table are `Update`'s |
| Backend.ReceiptTitle | src-tauri/src/main.rs:482-486 | "Recibo cierre del dia" iff it is a day closure, otherwise "Recibo cliente" |
| Backend.ProposedNumber | src-tauri/src/main.rs:478 | the proposed number lies in 1..2^32-1 and exceeds every counted number of a listed folder |
| Backend.ReceiptResult | src-tauri/src/main.rs:462-493 | succeeds iff the request has sales, the closure is authorized, the folder is available and the PDF is written; the file name carries the proposed number; failures come in the command's order, each with its own message unchanged: "No hay ventas para generar el recibo", then the authorization error, then the folder error, then the PDF error |
| Backend.ReceiptDocument | src-tauri/src/main.rs:482-488 | the document is titled as a day closure exactly when it is one, carries the date text, draws the sales' rows in order, draws every row and the footer at or above `min_y`, and ends with the `Total:` footer |
| Backend.ClosureNeedsAdministrator | src-tauri/src/main.rs:467-476 | a day-closure receipt is produced only in an administrator session or with an administrator's exact password |
| Backend.EmptyRequestFailsFirst | src-tauri/src/main.rs:463-465 | an empty request fails first, whatever the session, password or folder |
| Backend.ReceiptNameFresh | src-tauri/src/main.rs:477-480 | a receipt named from a listed folder overwrites nothing and carries a number above every receipt of the day |
| Backend.ConsecutiveReceipts | src-tauri/src/main.rs:477-480 | two receipts of the same day get consecutive numbers |
| Backend.CutFlagNeedsPassword | src-tauri/src/main.rs:467-476 | after a flag write cut short, a day closure needs an administrator's password as if there were no session |
| Backend.SessionFlagDecidesClosure | src-tauri/src/main.rs:467-468 | an administrator's flag authorizes any day closure; any other flag leaves the password check in place |
| Backend.Backend.Login | src-tauri/src/main.rs:280-354 | answers as `Login`; a successful login writes the flag file as `WriteAdminFlag` says: written in full it reads back as the session's administrator status, cut short it reads as no flag; a failed login leaves the old flag |
| Backend.Backend.GenerateReceipt | src-tauri/src/main.rs:462-493 | answers as `ReceiptResult`; on success the receipt is stored under its name and added to the folder; on failure nothing changes |
| Backend.Backend.SaveReceipt | src-tauri/src/main.rs:480-488 | the written receipt is kept under its name, and the name is listed in the folder once |

## Left out

- Opening the SQLite database (`find_db_path`, `Connection::open`), preparing statements and
  SQL errors other than a missing row are not modelled. Their error messages
  ("Error al conectar", "Error en la consulta", "Error al actualizar") are not produced.
- The PDF library (`printpdf`), fonts, page size and the PDF bytes are not modelled. The
  document is the ordered list of what is drawn and where. The errors of font loading and
  saving are one environment outcome (`Environment.saved`).
- `format_money` and every `f64`/`f32` value are not modelled. Amounts are opaque strings.
  Item prices are `real`.
- The clock is not modelled. `format_date_stamp` and the printed date are parameters.
- The file system is modelled as outcomes passed to the commands: finding or creating the
  receipts folder, `read_dir` and writing the PDF for the receipt command, and for a login what
  `fs::write` did to the flag file (written, never started, or cut short after truncating the
  file, which leaves a prefix of the flag text). Folder entries
  whose names are not UTF-8, and entries `read_dir` fails on, are absent from the listing. A
  failed PDF write leaves no file in the model, although `File::create` may already have made
  an empty one.
- Paths are not modelled. The receipt command answers with the file name, not with
  `recibos_dir.join(file_name)`.
- Concurrent commands are not modelled: two receipts generated at once could both take the
  same number.
- ReceiptNumbering.NextNumber: requires the largest counted number to be below 2^32-1. The
  source's `max_num + 1` would overflow a u32 there.
- Backend.ReceiptResult: requires that bound only for a request that reaches the numbering
  step, one with sales, an authorized closure, a receipts folder and a readable listing.
- Backend.Backend.GenerateReceipt: requires the same bound under the same condition.
- Inventory.Inventory.RegisterPurchase: requires the new quantity to fit in an i64. The
  source's `item.cantidad + cantidad` would overflow there.
- Inventory: the table is keyed by `id`, which the database scripts declare `UNIQUE`
  (`src/database/init_db.py:32`), so a map from id to row holds every table they can create.
- Inventory: `cantidad_producto` is stored as text and read with `COALESCE(CAST(... AS
  INTEGER), 0)`. The model stores an integer quantity. A `NULL` price, which the row reader
  would reject, is not modelled.
- Credentials: the scripts also declare the users' `name` `UNIQUE`
  (`src/database/init_db.py:22`). A table with two rows of one name therefore cannot arise from
  them. `Credentials.LoginUsesFirstRow` and `Credentials.ShadowedRowRefused` describe what the
  query would do with such a table, which the model's `users` sequence does not exclude.
- Credentials: a `password` column that is not text is not modelled. An `Admin` value that
  is not a 32-bit integer is (it fails the login like a missing row).
- The truncation test follows the code: `str::len` counts UTF-8 bytes, while `chars().take(25)`
  counts characters. `ReceiptLayout.WideShortNameGetsEllipsis` shows where the two differ.
- `listar_inventarios`, `obtener_inventario_por_nombre`, `insertar_inventario`,
  `cerrar_ventana`, `greet` and the application setup in `main` are outside the modelled core.
  So are the JavaScript front end and the Python database scripts.
