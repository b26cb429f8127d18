/** The self-contained logic of controllers/user.js: how an upload is
    named and filtered, how the `details` page collects phone numbers from a
    worksheet, and how reset tokens are issued, checked and cleared. */
module UserController {
  import opened Wrappers
  import opened Strings
  import opened UserModel

  // =====================================================================
  // Upload: multer storage `filename` and `fileFilter`
  // =====================================================================

  /** The name of the single file field the upload middleware accepts. */
  const UploadField := "filetoupload"
  const MaxFileSize := 3000000
  const XlsxExtension := ".xlsx"
  const UploadRejected := "Only Excel File Is Allowed!"

  /** The name the upload is stored under: field name, '-', the upload time
      in milliseconds, '.', and the last '.'-segment of the client's name. */
  function StoredFilename(fieldname: string, timestamp: nat, originalname: string): string
  {
    fieldname + "-" + Decimal(timestamp) + "." + LastSegment(originalname)
  }

  /** The stored name keeps the client's extension: its own last segment is
      the last segment of the original name, which is what follows the last
      '.' of that name, or the whole name when it has none. */
  lemma StoredFilenameShape(fieldname: string, timestamp: nat, originalname: string)
    ensures var name := StoredFilename(fieldname, timestamp, originalname);
      name[..|fieldname| + 1] == fieldname + "-" &&
      LastSegment(name) == LastSegment(originalname)
    ensures LastSegment(originalname) == match LastIndexOf(originalname, '.')
                                         case None => originalname
                                         case Some(k) => originalname[k + 1..]
    ensures '.' !in originalname ==>
      StoredFilename(fieldname, timestamp, originalname) == fieldname + "-" + Decimal(timestamp) + "." + originalname
  {
    var seg := LastSegment(originalname);
    var head := fieldname + "-" + Decimal(timestamp);
    assert StoredFilename(fieldname, timestamp, originalname) == head + ['.'] + seg;
    SplitAfterSeparator(head, seg, '.');
    LastSegmentAfterLastDot(originalname);
  }

  /** `fileFilter`: accept only when `path.extname(name).toLowerCase()` is ".xlsx". */
  predicate FileFilter(originalname: string)
  {
    Lower(ExtName(originalname)) == XlsxExtension
  }

  lemma LowerDot(s: string, j: nat)
    requires j < |s|
    ensures Lower(s)[j] == '.' <==> s[j] == '.'
  {
  }

  lemma LastComponentWithoutSlash(s: string)
    requires '/' !in s
    ensures LastComponent(s) == s
  {
  }

  /** The filter in terms of the name alone: the last path component is
      longer than five characters and ends, ignoring case, in ".xlsx". */
  lemma FileFilterByName(originalname: string)
    ensures FileFilter(originalname) <==>
      var part := LastComponent(originalname);
      |part| > 5 && Lower(part[|part| - 5..]) == XlsxExtension
  {
    var part := LastComponent(originalname);
    if |part| > 5 && Lower(part[|part| - 5..]) == XlsxExtension {
      var e := part[|part| - 5..];
      var p := |part| - 5;
      LowerDot(e, 0);
      assert part[p] == '.';
      forall j | p < j < |part| ensures part[j] != '.' {
        LowerDot(e, j - p);
      }
      match LastIndexOf(part, '.')
      case None =>
      case Some(d) =>
        assert d == p;
        assert ExtName(originalname) == e;
    }
  }

  lemma LowerOfExtension(e: string)
    requires e == ".XLSX" || e == ".xlsx"
    ensures Lower(e) == XlsxExtension
  {
    var l := Lower(e);
    assert l[0] == '.' && l[1] == 'x' && l[2] == 'l' && l[3] == 's' && l[4] == 'x';
  }

  /** The documented cases: upper-case extensions pass, ".xls" and a bare
      dot-file named ".xlsx" do not. */
  lemma FileFilterAcceptsUpperCase()
    ensures FileFilter("contacts.XLSX")
  {
    var name := "contacts.XLSX";
    LastComponentWithoutSlash(name);
    FileFilterByName(name);
    assert name[8..] == ".XLSX";
    LowerOfExtension(name[8..]);
  }

  lemma FileFilterUsesLastDot()
    ensures FileFilter("contacts.v2.xlsx")
  {
    var name := "contacts.v2.xlsx";
    LastComponentWithoutSlash(name);
    FileFilterByName(name);
    assert name[11..] == ".xlsx";
    LowerOfExtension(name[11..]);
  }

  lemma FileFilterRejectsXls()
    ensures !FileFilter("contacts.xls")
  {
    LastComponentWithoutSlash("contacts.xls");
    FileFilterByName("contacts.xls");
    assert Lower("contacts.xls"[7..])[4] != XlsxExtension[4];
  }

  lemma FileFilterRejectsDotFile()
    ensures !FileFilter(".xlsx")
  {
    LastComponentWithoutSlash(".xlsx");
    FileFilterByName(".xlsx");
  }

  /** What the upload handler does with one file: reject it with the
      "Only Excel" message, or push its stored path onto the user's list. */
  datatype UploadResult = Rejected(message: string) | Stored(entry: string)

  function UploadFile(originalname: string, size: nat, timestamp: nat): UploadResult
  {
    if !FileFilter(originalname) || size > MaxFileSize then Rejected(UploadRejected)
    else Stored(UploadsPrefix + StoredFilename(UploadField, timestamp, originalname))
  }

  /** An upload is stored exactly when the last component of the client's
      name is longer than five characters and ends, ignoring case, in
      ".xlsx", and the file is within the size limit; everything else gets
      the one message. A stored entry is "/uploads/filetoupload-..." and
      keeps the client name's last '.'-segment. */
  lemma UploadFileOutcome(originalname: string, size: nat, timestamp: nat)
    ensures var part := LastComponent(originalname);
      UploadFile(originalname, size, timestamp).Stored? <==>
      |part| > 5 && Lower(part[|part| - 5..]) == XlsxExtension && size <= MaxFileSize
    ensures UploadFile(originalname, size, timestamp).Rejected? ==>
      UploadFile(originalname, size, timestamp).message == UploadRejected
    ensures var r := UploadFile(originalname, size, timestamp);
      r.Stored? ==> r.entry[..|UploadsPrefix + UploadField| + 1] == UploadsPrefix + UploadField + "-"
    ensures var r := UploadFile(originalname, size, timestamp);
      r.Stored? ==> LastSegment(r.entry) == LastSegment(originalname)
  {
    FileFilterByName(originalname);
    var r := UploadFile(originalname, size, timestamp);
    if r.Stored? {
      assert r.entry == UploadsPrefix + StoredFilename(UploadField, timestamp, originalname);
      StoredEntryPrefix(originalname, timestamp);
      StoredEntryLastSegment(originalname, timestamp);
    }
  }

  lemma StoredEntryPrefix(originalname: string, timestamp: nat)
    ensures var entry := UploadsPrefix + StoredFilename(UploadField, timestamp, originalname);
      entry[..|UploadsPrefix + UploadField| + 1] == UploadsPrefix + UploadField + "-"
  {
    var head := UploadsPrefix + UploadField + "-";
    var tail := Decimal(timestamp) + "." + LastSegment(originalname);
    assert UploadsPrefix + StoredFilename(UploadField, timestamp, originalname) == head + tail;
    assert (head + tail)[..|head|] == head;
  }

  lemma StoredEntryLastSegment(originalname: string, timestamp: nat)
    ensures LastSegment(UploadsPrefix + StoredFilename(UploadField, timestamp, originalname)) == LastSegment(originalname)
  {
    var seg := LastSegment(originalname);
    var head := UploadsPrefix + UploadField + "-" + Decimal(timestamp);
    assert UploadsPrefix + StoredFilename(UploadField, timestamp, originalname) == head + ['.'] + seg;
    SplitAfterSeparator(head, seg, '.');
  }

  /** An accepted upload of a plain file name keeps an extension that is
      "xlsx" up to case. */
  lemma UploadedEntryIsXlsx(originalname: string, size: nat, timestamp: nat)
    requires '/' !in originalname
    ensures var r := UploadFile(originalname, size, timestamp);
      r.Stored? ==> Lower(LastSegment(r.entry)) == "xlsx"
  {
    var r := UploadFile(originalname, size, timestamp);
    if r.Stored? {
      assert r.entry == UploadsPrefix + StoredFilename(UploadField, timestamp, originalname);
      StoredEntryLastSegment(originalname, timestamp);
      AcceptedExtension(originalname);
    }
  }

  /** An accepted plain file name has a last segment that lower-cases to "xlsx". */
  lemma AcceptedExtension(originalname: string)
    requires FileFilter(originalname) && '/' !in originalname
    ensures Lower(LastSegment(originalname)) == "xlsx"
  {
    LastComponentWithoutSlash(originalname);
    FileFilterByName(originalname);
    var p := |originalname| - 5;
    var e := originalname[p..];
    LowerDot(e, 0);
    forall j | p < j < |originalname| ensures originalname[j] != '.' {
      LowerDot(e, j - p);
    }
    match LastIndexOf(originalname, '.')
    case None =>
    case Some(d) =>
      assert d == p;
      LastSegmentAfterLastDot(originalname);
      assert LastSegment(originalname) == e[1..];
      assert Lower(e[1..]) == Lower(e)[1..];
  }

  // =====================================================================
  // details: phone numbers from column 1 of "Sheet1"
  // =====================================================================

  /** The value of a cell as the spreadsheet reader yields it: nothing
      (`null`), a string, or any other value (a number, a date, rich text),
      none of which has a string length. */
  datatype CellValue = Empty | Text(text: string) | NonText

  /** Column 1 of a worksheet; `column[r - 1]` is the cell of row r, rows
      are numbered from 1 and `rowCount` is the number of the last row. */
  datatype Worksheet = Worksheet(column: seq<CellValue>) {
    function RowCount(): nat { |column| }

    function Cell(row: nat): CellValue
      requires 1 <= row <= RowCount()
    {
      column[row - 1]
    }
  }

  /** A cell is kept when it holds a string of exactly 11 characters. */
  predicate IsCandidate(c: CellValue)
  {
    c.Text? && |c.text| == 11
  }

  /** The candidate cells' strings, in row order. */
  function KeepNumbers(cells: seq<CellValue>): (data: seq<string>)
    ensures |data| <= |cells|
    ensures forall k :: 0 <= k < |data| ==> |data[k]| == 11
  {
    if cells == [] then []
    else KeepNumbers(cells[..|cells| - 1]) + (if IsCandidate(Last(cells)) then [Last(cells).text] else [])
  }

  /** A string is kept exactly when some cell holds it and it has 11 characters. */
  lemma {:induction false} KeepNumbersMembership(cells: seq<CellValue>, x: string)
    ensures x in KeepNumbers(cells) <==> Text(x) in cells && |x| == 11
  {
    if cells != [] {
      var init := cells[..|cells| - 1];
      assert cells == init + [Last(cells)];
      KeepNumbersMembership(init, x);
    }
  }

  /** Filtering a concatenation filters each part and keeps their order. */
  lemma {:induction false} KeepNumbersAppend(a: seq<CellValue>, b: seq<CellValue>)
    ensures KeepNumbers(a + b) == KeepNumbers(a) + KeepNumbers(b)
  {
    if b != [] {
      var init := b[..|b| - 1];
      assert (a + b)[..|a + b| - 1] == a + init;
      assert Last(a + b) == Last(b);
      KeepNumbersAppend(a, init);
    } else {
      assert a + b == a;
    }
  }

  /** The rows the loop of `details` reads, whose index starts at 1 and stays
      below rowCount: rows 1 to rowCount - 1. */
  function RowsReadAsWritten(sheet: Worksheet): seq<CellValue>
  {
    if sheet.RowCount() == 0 then [] else sheet.column[..sheet.RowCount() - 1]
  }

  /** The loop of `details` as written. */
  method FetchNumbers(sheet: Worksheet) returns (data: seq<string>)
    ensures data == KeepNumbers(RowsReadAsWritten(sheet))
    ensures |data| <= if sheet.RowCount() == 0 then 0 else sheet.RowCount() - 1
  {
    data := [];
    var i := 1;
    while i < sheet.RowCount()
      invariant 1 <= i <= if sheet.RowCount() == 0 then 1 else sheet.RowCount()
      invariant data == KeepNumbers(sheet.column[..i - 1])
    {
      var number := sheet.Cell(i);
      if number.Text? && |number.text| == 11 {
        data := data + [number.text];
      }
      assert sheet.column[..i][..i - 1] == sheet.column[..i - 1];
      i := i + 1;
    }
  }

  /** Row rowCount is never read: whatever the last row holds, the loop as
      written sees only the rows before it. */
  lemma LastRowNeverRead(column: seq<CellValue>, last: CellValue)
    ensures RowsReadAsWritten(Worksheet(column + [last])) == column
  {
    assert (column + [last])[..|column|] == column;
  }

  /** A sheet whose only row holds a valid number yields nothing as written,
      though the intended reading yields that number. */
  lemma LastRowDropped()
    ensures KeepNumbers(RowsReadAsWritten(Worksheet([Text("03001234567")]))) == []
    ensures KeepNumbers(Worksheet([Text("03001234567")]).column) == ["03001234567"]
  {
    var cells := [Text("03001234567")];
    assert cells[..0] == [];
  }

  /** The loop reading every row, 1 to rowCount inclusive. */
  method FetchAllNumbers(sheet: Worksheet) returns (data: seq<string>)
    ensures data == KeepNumbers(sheet.column)
    ensures forall row :: 1 <= row <= sheet.RowCount() && IsCandidate(sheet.Cell(row)) ==>
      sheet.Cell(row).text in data
  {
    data := [];
    var i := 1;
    while i <= sheet.RowCount()
      invariant 1 <= i <= sheet.RowCount() + 1
      invariant data == KeepNumbers(sheet.column[..i - 1])
    {
      var number := sheet.Cell(i);
      if number.Text? && |number.text| == 11 {
        data := data + [number.text];
      }
      assert sheet.column[..i][..i - 1] == sheet.column[..i - 1];
      i := i + 1;
    }
    assert sheet.column[..i - 1] == sheet.column;
    forall row | 1 <= row <= sheet.RowCount() && IsCandidate(sheet.Cell(row))
      ensures sheet.Cell(row).text in data
    {
      KeepNumbersMembership(sheet.column, sheet.Cell(row).text);
    }
  }

  datatype DetailsPage = Fetched(data: seq<string>) | DetailsError(message: string)

  const InvalidFileName := "Invalid file name!"
  const NoData := "Could not fetch data"

  /** The `details` handler as written, with `fs.existsSync` and the parsed
      worksheet passed in. */
  method Details(fileExists: bool, sheet: Worksheet) returns (page: DetailsPage)
    ensures !fileExists ==> page == DetailsError(InvalidFileName)
    ensures fileExists ==> (page.Fetched? <==> KeepNumbers(RowsReadAsWritten(sheet)) != [])
    ensures fileExists && page.DetailsError? ==> page.message == NoData
    ensures page.Fetched? ==> page.data == KeepNumbers(RowsReadAsWritten(sheet))
  {
    if !fileExists {
      return DetailsError(InvalidFileName);
    }
    var data := FetchNumbers(sheet);
    if |data| > 0 {
      page := Fetched(data);
    } else {
      page := DetailsError(NoData);
    }
  }

  // =====================================================================
  // Password reset: issue, verify and clear the token
  // =====================================================================

  /** The query of `verifyToken`: the stored token equals the link's token
      and the stored expiry is strictly later than now. */
  predicate TokenAccepted(user: User, token: string, now: int)
    reads user
  {
    user.resetPasswordToken == Some(token) &&
    user.resetPasswordExpires.Some? && user.resetPasswordExpires.value > now
  }

  datatype TokenPage = ResetForm(user: User) | NotFound

  /** `verifyToken` over the stored users: the reset form for a user whose
      token matches and has not expired, the 404 page when there is none. */
  method VerifyToken(users: seq<User>, token: string, now: int) returns (page: TokenPage)
    ensures page.NotFound? <==> forall u :: u in users ==> !TokenAccepted(u, token, now)
    ensures page.ResetForm? ==> page.user in users && TokenAccepted(page.user, token, now)
  {
    for i := 0 to |users|
      invariant forall k :: 0 <= k < i ==> !TokenAccepted(users[k], token, now)
    {
      if TokenAccepted(users[i], token, now) {
        return ResetForm(users[i]);
      }
    }
    return NotFound;
  }

  const NoSuchUserMessage := "User with this email does not exist"

  /** Either the flashed error for an unknown email, or the mailed link. */
  datatype ForgotOutcome = NoSuchUser(message: string) | ResetLinkSent(link: string)

  /** `forgotPassword` once the user has been looked up: issue a token and
      build the link mailed to the user. The link opens the reset form for
      exactly one hour and for no other token. */
  method ForgotPassword(user: User?, host: string, random: seq<byte>, now: int) returns (r: ForgotOutcome)
    requires |random| == ResetTokenBytes
    modifies if user == null then {} else {user}
    ensures user == null <==> r == NoSuchUser(NoSuchUserMessage)
    ensures user != null ==> r == ResetLinkSent("http://" + host + "/auth/reset/" + HexEncode(random))
    ensures user != null ==> forall token, later :: TokenAccepted(user, token, later) <==>
      token == HexEncode(random) && later < now + ResetWindow
    ensures user != null ==> user.fullname == old(user.fullname) && user.email == old(user.email)
    ensures user != null ==> user.password == old(user.password) && user.uploadedFiles == old(user.uploadedFiles)
  {
    if user == null {
      return NoSuchUser(NoSuchUserMessage);
    }
    user.GeneratePasswordReset(random, now);
    r := ResetLinkSent("http://" + host + "/auth/reset/" + user.resetPasswordToken.value);
  }

  datatype ResetOutcome = RedirectToLogin | Error404

  /** `resetPassword` once the user has been looked up by id, with the new
      password's hash passed in: store the hash and clear the token, after
      which no link is accepted; an unknown id ends on the 404 page. */
  method ResetPassword(user: User?, passwordHash: string) returns (r: ResetOutcome)
    modifies if user == null then {} else {user}
    ensures user == null <==> r == Error404
    ensures user != null ==> user.password == passwordHash
    ensures user != null ==> user.resetPasswordToken == Some("") && user.resetPasswordExpires == None
    ensures user != null ==> forall token, later :: !TokenAccepted(user, token, later)
    ensures user != null ==> user.fullname == old(user.fullname) && user.email == old(user.email)
    ensures user != null ==> user.uploadedFiles == old(user.uploadedFiles)
  {
    if user == null {
      return Error404;
    }
    user.password := passwordHash;
    user.resetPasswordToken := Some("");
    user.resetPasswordExpires := None;
    r := RedirectToLogin;
  }
}
