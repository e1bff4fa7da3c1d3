/**
 * The backend state the commands share and the two commands that tie the other modules
 * together: `validar_login` (src-tauri/src/main.rs:280-354), which writes the session flag
 * file on success, and `generar_recibo_ventas` (462-493), which checks the request, authorizes
 * a day closure, numbers the receipt and lays it out.
 *
 * The state is the `users` table, the text of the session flag file, the names listed in the
 * receipts folder and the receipts written there. What the operating system decides (whether
 * the folder exists or can be created, whether it can be listed, whether the PDF is written,
 * whether the flag file is written) is passed in; the clock is passed in as the date stamp and
 * the date text printed on the receipt.
 */
module Backend {
  import opened Wrappers
  import opened RustText
  import opened ReceiptNumbering
  import opened ReceiptLayout
  import opened AdminFlag
  import opened Credentials

  /** `ReciboRequest`. */
  datatype ReceiptRequest = ReceiptRequest(sales: seq<SaleLine>, total: Money, isClosure: bool,
                                           adminPassword: Option<string>)

  /**
   * What the file system answers during one receipt: whether the receipts folder is available
   * (or the error `get_documentos_recibos_dir` reports), whether `read_dir` can list it, and
   * whether the PDF is produced and written (or the error `crear_pdf_recibo` reports).
   */
  datatype Environment = Environment(folder: Outcome, listable: bool, saved: Outcome)

  const NoSales: string := "No hay ventas para generar el recibo"
  const ClosureTitle: string := "Recibo cierre del dia"
  const CustomerTitle: string := "Recibo cliente"

  function ReceiptTitle(isClosure: bool): (r: string)
    ensures r == (if isClosure then ClosureTitle else CustomerTitle)
    ensures r != [] && (r == ClosureTitle <==> isClosure)
  {
    if isClosure then ClosureTitle else CustomerTitle
  }

  /** The number the allocator proposes: one above the highest counted, or 1 when the folder cannot be listed. */
  function ProposedNumber(folder: seq<string>, stamp: string, listable: bool): (n: nat)
    requires listable ==> MaxCounted(folder, stamp) < U32Max
    ensures 1 <= n <= U32Max
    ensures listable ==> forall s :: s in folder && CountedNumber(s, stamp).Some? ==> CountedNumber(s, stamp).value < n
  {
    MaxCountedIsMax(folder, stamp);
    if listable then MaxCounted(folder, stamp) + 1 else 1
  }

  /**
   * The request gets as far as numbering the receipt: it has sales, a day closure is
   * authorized, and the receipts folder is available. Only then is `max_num + 1` computed.
   */
  predicate ReachesNumbering(req: ReceiptRequest, session: Option<bool>, users: seq<User>,
                             env: Environment)
  {
    req.sales != [] && AuthorizeClosure(req.isClosure, session, req.adminPassword, users) == Pass
    && env.folder == Pass
  }

  /**
   * The answer of `generar_recibo_ventas`: the file name of the new receipt, or the first error
   * met in the order the command checks them.
   */
  function ReceiptResult(req: ReceiptRequest, session: Option<bool>, users: seq<User>,
                         folder: seq<string>, stamp: string, env: Environment): (r: Result<string>)
    requires ReachesNumbering(req, session, users, env) && env.listable ==> MaxCounted(folder, stamp) < U32Max
    ensures r.Success? <==>
      req.sales != [] && AuthorizeClosure(req.isClosure, session, req.adminPassword, users) == Pass
      && env.folder == Pass && env.saved == Pass
    ensures req.sales == [] ==> r == Failure(NoSales)
    ensures var auth := AuthorizeClosure(req.isClosure, session, req.adminPassword, users);
      && (req.sales != [] && auth.Fail? ==> r == Failure(auth.error))
      && (req.sales != [] && auth == Pass && env.folder.Fail? ==> r == Failure(env.folder.error))
      && (req.sales != [] && auth == Pass && env.folder == Pass && env.saved.Fail? ==>
            r == Failure(env.saved.error))
    ensures r.Success? ==> r.value == FileName(stamp, ProposedNumber(folder, stamp, env.listable))
  {
    if req.sales == [] then Failure(NoSales)
    else
      match AuthorizeClosure(req.isClosure, session, req.adminPassword, users)
      case Fail(e) => Failure(e)
      case Pass =>
        if env.folder.Fail? then Failure(env.folder.error)
        else
          var name := FileName(stamp, ProposedNumber(folder, stamp, env.listable));
          if env.saved.Fail? then Failure(env.saved.error) else Success(name)
  }

  /**
   * The document a request produces: titled as a day closure exactly when it is one, with the
   * sales' rows in order, every row and the footer at or above the bottom margin, and the total last.
   */
  function ReceiptDocument(req: ReceiptRequest, dateText: string): (doc: Document)
    ensures doc.title == ClosureTitle <==> req.isClosure
    ensures doc.dateText == dateText
    ensures LineTexts(doc.events) == Rows(req.sales)
    ensures forall e :: e in doc.events && !e.Header? ==> MinY <= e.y
    ensures doc.events != [] && doc.events[|doc.events| - 1].Footer?
            && doc.events[|doc.events| - 1].text == FooterText(req.total)
  {
    var rows, footer := Rows(req.sales), FooterText(req.total);
    LinesInOrder(rows, footer);
    LayoutFloor(rows, footer);
    Document(ReceiptTitle(req.isClosure), dateText, Layout(rows, footer))
  }

  /** A day-closure receipt is only produced in an administrator session or with an administrator's exact password. */
  lemma ClosureNeedsAdministrator(req: ReceiptRequest, session: Option<bool>, users: seq<User>,
                                  folder: seq<string>, stamp: string, env: Environment)
    requires ReachesNumbering(req, session, users, env) && env.listable ==> MaxCounted(folder, stamp) < U32Max
    requires req.isClosure && ReceiptResult(req, session, users, folder, stamp, env).Success?
    ensures session == Some(true)
            || (req.adminPassword.Some? && exists u :: u in users && IsAdminWith(u, req.adminPassword.value))
  {
  }

  /** An empty request fails with its own message before the password, the folder or anything else is looked at. */
  lemma EmptyRequestFailsFirst(req: ReceiptRequest, session: Option<bool>, users: seq<User>,
                               folder: seq<string>, stamp: string, env: Environment)
    requires req.sales == []
    ensures ReceiptResult(req, session, users, folder, stamp, env) == Failure(NoSales)
  {
  }

  /** A receipt named from a listed folder does not overwrite a file of that folder, and carries a number above every receipt of the day. */
  lemma {:induction false} ReceiptNameFresh(req: ReceiptRequest, session: Option<bool>, users: seq<User>,
                                            folder: seq<string>, stamp: string, env: Environment)
    requires env.listable && MaxCounted(folder, stamp) < U32Max
    requires ReceiptResult(req, session, users, folder, stamp, env).Success?
    ensures var name := ReceiptResult(req, session, users, folder, stamp, env).value;
      && name !in folder
      && CountedNumber(name, stamp).Some?
      && forall s :: s in folder && CountedNumber(s, stamp).Some? ==>
           CountedNumber(s, stamp).value < CountedNumber(name, stamp).value
  {
    NextNameIsFresh(folder, stamp);
    IssuedNameCounted(stamp, MaxCounted(folder, stamp) + 1);
  }

  /** Two receipts of the same day, from a folder that can be listed, get consecutive numbers. */
  lemma {:induction false} ConsecutiveReceipts(req1: ReceiptRequest, req2: ReceiptRequest, session: Option<bool>,
                                               users: seq<User>, folder: seq<string>, stamp: string,
                                               env: Environment)
    requires env.listable && MaxCounted(folder, stamp) + 1 < U32Max
    requires ReceiptResult(req1, session, users, folder, stamp, env).Success?
    ensures var first := ReceiptResult(req1, session, users, folder, stamp, env).value;
      && MaxCounted(folder + [first], stamp) < U32Max
      && (ReceiptResult(req2, session, users, folder + [first], stamp, env).Success? ==>
            ReceiptResult(req2, session, users, folder + [first], stamp, env).value
            == FileName(stamp, MaxCounted(folder, stamp) + 2))
  {
    var m := MaxCounted(folder, stamp);
    var first := ReceiptResult(req1, session, users, folder, stamp, env).value;
    assert first == FileName(stamp, ProposedNumber(folder, stamp, true));
    assert ProposedNumber(folder, stamp, true) == m + 1;
    NumbersAdvance(folder, stamp);
    assert MaxCounted(folder + [first], stamp) == m + 1;
    assert ProposedNumber(folder + [first], stamp, true) == m + 2;
  }

  /** The backend's state between commands. */
  class Backend {
    var users: seq<User>
    /** The text of `ventas_admin.conf`, or `None` when there is no such file or it cannot be read. */
    var adminFile: Option<string>
    /** The names `read_dir` lists in the receipts folder, in listing order. */
    var folder: seq<string>
    /** The receipts this backend wrote, by file name. */
    var documents: map<string, Document>

    /** Every receipt written is listed in the folder, once. */
    ghost predicate Valid()
      reads this
    {
      (forall name :: name in documents ==> name in folder)
      && forall i, j :: 0 <= i < j < |folder| ==> folder[i] != folder[j]
    }

    constructor(users0: seq<User>, adminFile0: Option<string>, folder0: seq<string>)
      requires forall i, j :: 0 <= i < j < |folder0| ==> folder0[i] != folder0[j]
      ensures Valid()
      ensures users == users0 && adminFile == adminFile0 && folder == folder0 && documents == map[]
    {
      users := users0;
      adminFile := adminFile0;
      folder := folder0;
      documents := map[];
    }

    /**
     * `validar_login`: answer from the table; on success write the session flag. `write` says
     * what the write did (a failed write is only logged): written in full, the flag reads back as
     * the session's status; cut short after the file was truncated, it reads as no flag. A failed
     * login leaves whatever flag an earlier session wrote.
     */
    method Login(name: string, password: string, write: FlagWrite) returns (r: LoginResponse)
      modifies this
      ensures r == Credentials.Login(old(users), name, password)
      ensures adminFile == (if r.success then WriteAdminFlag(old(adminFile), r.isAdmin, write) else old(adminFile))
      ensures r.success && write == Written ==> ReadAdminFlag(adminFile) == Some(r.isAdmin)
      ensures r.success && write.CutShort? && write.kept < |EncodeAdminFlag(r.isAdmin)| ==>
                ReadAdminFlag(adminFile) == None
      ensures users == old(users) && folder == old(folder) && documents == old(documents)
    {
      r := Credentials.Login(users, name, password);
      if r.success {
        adminFile := WriteAdminFlag(adminFile, r.isAdmin, write);
      }
    }

    /**
     * `generar_recibo_ventas`: refuse an empty request, authorize a day closure, take the next
     * number of the day, lay the receipt out and write it under its name.
     */
    method GenerateReceipt(req: ReceiptRequest, stamp: string, dateText: string, env: Environment)
      returns (r: Result<string>)
      requires Valid()
      requires ReachesNumbering(req, ReadAdminFlag(adminFile), users, env) && env.listable ==>
               MaxCounted(folder, stamp) < U32Max
      modifies this
      ensures Valid()
      ensures r == ReceiptResult(req, ReadAdminFlag(old(adminFile)), old(users), old(folder), stamp, env)
      ensures users == old(users) && adminFile == old(adminFile)
      ensures r.Failure? ==> folder == old(folder) && documents == old(documents)
      ensures r.Success? ==>
        && folder == old(folder) + (if r.value in old(folder) then [] else [r.value])
        && documents == old(documents)[r.value := ReceiptDocument(req, dateText)]
    {
      if req.sales == [] {
        return Failure(NoSales);
      }
      var session := ReadAdminFlag(adminFile);
      var auth := AuthorizeClosure(req.isClosure, session, req.adminPassword, users);
      if auth.Fail? {
        return Failure(auth.error);
      }
      if env.folder.Fail? {
        return Failure(env.folder.error);
      }
      var listing := if env.listable then Some(folder) else None;
      var n := NextNumber(listing, stamp);
      assert n == ProposedNumber(folder, stamp, env.listable);
      var name := FileName(stamp, n);
      var doc := RenderReceipt(req.sales, req.total, ReceiptTitle(req.isClosure), dateText);
      ghost var expected := ReceiptResult(req, session, users, folder, stamp, env);
      if env.saved.Fail? {
        assert expected == Failure(env.saved.error);
        return Failure(env.saved.error);
      }
      assert expected == Success(name);
      SaveReceipt(name, doc);
      r := Success(name);
    }

    /** The receipt written under its name: listed once in the folder, and kept. */
    method SaveReceipt(name: string, doc: Document)
      requires Valid()
      modifies this
      ensures Valid()
      ensures users == old(users) && adminFile == old(adminFile)
      ensures folder == old(folder) + (if name in old(folder) then [] else [name])
      ensures documents == old(documents)[name := doc]
    {
      if name !in folder {
        folder := folder + [name];
      }
      documents := documents[name := doc];
    }
  }

  /**
   * The flag an administrator's login writes lets any later day closure through without a
   * password, until another successful login overwrites it (a failed login does not, see
   * `Backend.Login`); the flag of any other user's login leaves the password check in place.
   */
  lemma SessionFlagDecidesClosure(users: seq<User>, password: Option<string>)
    ensures AuthorizeClosure(true, ReadAdminFlag(Some(EncodeAdminFlag(true))), password, users) == Pass
    ensures AuthorizeClosure(true, ReadAdminFlag(Some(EncodeAdminFlag(false))), password, users)
            == AuthorizeClosure(true, None, password, users)
  {
    FlagRoundTrip(true);
    FlagRoundTrip(false);
  }

  /** A flag write cut short leaves no administrator session: a day closure needs the password again. */
  lemma CutFlagNeedsPassword(file: Option<string>, isAdmin: bool, k: nat, users: seq<User>,
                             password: Option<string>)
    requires k < |EncodeAdminFlag(isAdmin)|
    ensures AuthorizeClosure(true, ReadAdminFlag(WriteAdminFlag(file, isAdmin, CutShort(k))), password, users)
            == AuthorizeClosure(true, None, password, users)
  {
  }
}
