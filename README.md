# iCrowd web application: the self-contained logic, in Dafny

The application is an Express server. Users sign in, upload spreadsheets of phone numbers, view the
numbers a spreadsheet holds, send a test SMS, and reset a forgotten password through a mailed link.
Most of the code is routing, rendering and calls into libraries. This project models the parts whose
behaviour can be stated exactly, and proves what they promise:

- **Mobile-number check** (`validateNumber`). The regular expression has three alternatives:
  - `+92` or `0092`, an optional dash, three digits, an optional dash, seven digits;
  - eleven digits;
  - four digits, a dash, seven digits.

  It is modelled twice. `ValidateNumber` is an executable recogniser. `PatternMatches` is the pattern's
  language, written as "there is a decomposition into these pieces". They are proved equal.
- **Password-reset gate** (`resetPassword` middleware). The validator's error messages are collected.
  A password mismatch appends "Password does not match". The request proceeds only when nothing was
  collected.
- **Upload naming and filtering.** The stored name is built from the field name, the upload time, and
  the last `.`-segment of the client's file name. The filter accepts a file only when its `path.extname`,
  lower-cased, is `.xlsx`. There is also the 3 000 000-byte limit.
- **Phone numbers of a worksheet** (`details`). The handler walks rows of column 1. It keeps the cells
  that hold an 11-character string, in row order. It then shows them, or "Could not fetch data".
- **Reset tokens.**
  - `generatePasswordReset` stores the hex form of 20 random bytes and an expiry one hour after now.
  - `verifyToken` accepts a token only while it is stored and not yet expired.
  - `resetPassword` clears the token.
- **File lookup on the user record** (`findFile`, `searchFile`). Both are first-match searches over
  `uploadedFiles`, keyed by `"/uploads/" + name`.

Modules follow the source files:

| module | file | models |
|---|---|---|
| `Validation` | `validation.dfy` | helpers/validation.js |
| `UserModel` | `user_model.dfy` | models/user-model.js |
| `UserController` | `user_controller.dfy` | controllers/user.js |
| `Strings` | `strings.dfy` | the JavaScript and Node.js built-ins the controller uses: `split`, `toLowerCase`, number-to-string, `path.extname` (POSIX), `Buffer.toString('hex')` |
| `Wrappers` | `wrappers.dfy` | `Option`, for a `false` or `null` result |

The user record is a `class User`, because the source assigns its fields in place. The record's
`uploadedFiles` list is a `seq` field. `GeneratePasswordReset` changes only the two reset fields.
`FindFile` and `SearchFile` have no `modifies` clause, so they change nothing. Values the source gets
from outside are parameters:

- the clock (`Date.now()`);
- the random bytes (`crypto.randomBytes(20)`);
- the password hash (bcrypt);
- the file-exists test;
- the parsed worksheet;
- the validator's error list;
- the users the database query scans.

## Model

| member | source | states |
|---|---|---|
| Validation.ValidateNumberMatchesPattern | helpers/validation.js:92 | the recogniser `ValidateNumber` accepts a string iff it is (+92 or 0092), optional dash, 3 digits, optional dash, 7 digits; or 11 digits; or 4 digits, '-', 7 digits |
| Validation.AcceptedNumberShape | helpers/validation.js:92 | every accepted number has 11 to 16 characters, all digits or '-', except a '+' that can only be the first character |
| Validation.NationalExample | helpers/validation.js:92 | "03001234567" is accepted |
| Validation.InternationalExample | helpers/validation.js:92 | "+923001234567" is accepted |
| Validation.InternationalDashedExample | helpers/validation.js:92 | "0092-300-1234567" is accepted |
| Validation.DashedExample | helpers/validation.js:92 | "0300-1234567" is accepted |
| Validation.RejectedNumberExamples | helpers/validation.js:92 | "12345" and "abcxyz12345" are rejected |
| Validation.ValidateNumberGate | helpers/validation.js:91-101 | the request proceeds iff the number is in the pattern's language; otherwise the testing view is rendered with "Invalid Number" |
| Validation.ResetPasswordMessages | helpers/validation.js:70-78 | the messages are the validator's messages in order, followed by "Password does not match" exactly when the passwords differ |
| Validation.ResetPasswordGate | helpers/validation.js:63-89 | the request proceeds iff there are no validator errors and the passwords agree; otherwise the reset_password view is rendered with every message, and a mismatch message comes last |
| UserModel.LookupFile | models/user-model.js:27-34 | nothing is found iff no entry's path equals the key; a found entry is in the list and its path equals the key |
| UserModel.LookupFileIsFirst | models/user-model.js:28-31 | the entry found is the first one in list order whose path matches, never a later one |
| UserModel.User.FindFile | models/user-model.js:27-34 | returns the first entry whose path is "/uploads/" + the argument, or nothing; changes no field |
| UserModel.User.SearchFile | models/user-model.js:36-43 | returns exactly what FindFile returns, for every file list and argument; changes no field |
| UserModel.User.GeneratePasswordReset | models/user-model.js:22-25 | the token becomes the 40-character lower-case hex form of the 20 bytes; the expiry becomes now + 3600000; every other field is unchanged |
| UserModel.User.constructor | models/user-model.js:5-12 | a new record has the schema defaults, no uploaded files and no reset token |
| Strings.HexEncode | models/user-model.js:23 | the hex text has two lower-case hex digits per byte |
| Strings.HexRoundTrip | models/user-model.js:23 | the hex text decodes back to the bytes it came from, so distinct bytes give distinct tokens |
| Strings.Decimal | controllers/user.js:15-16 | the timestamp is rendered with digits only and with no leading zero |
| Strings.DecimalRoundTrip | controllers/user.js:15-16 | the rendered timestamp reads back as the same number |
| Strings.JoinSplit | controllers/user.js:16 | splitting the name on '.' loses nothing: joining the pieces gives the name back |
| Strings.LastSegmentAfterLastDot | controllers/user.js:16 | the last '.'-segment is what follows the last '.', or the whole name when it has no '.' |
| Strings.ExtName | controllers/user.js:25 | the extension is a proper suffix of the last path component that starts with its only '.'; it is empty exactly when that component has no '.' after its first character, or is ".." |
| UserController.StoredFilenameShape | controllers/user.js:13-18 | for `StoredFilename`, the model of line 16: the stored name starts with the field name and '-'; its own last segment is the original name's last segment; with no '.' in the original name, the whole name follows the timestamp's '.' |
| UserController.FileFilterByName | controllers/user.js:24-31 | for `FileFilter`, the model of these lines: a file passes iff its last path component is longer than five characters and ends in ".xlsx", ignoring case |
| UserController.FileFilterAcceptsUpperCase | controllers/user.js:24-31 | "contacts.XLSX" passes |
| UserController.FileFilterUsesLastDot | controllers/user.js:24-31 | "contacts.v2.xlsx" passes |
| UserController.FileFilterRejectsXls | controllers/user.js:24-31 | "contacts.xls" is refused |
| UserController.FileFilterRejectsDotFile | controllers/user.js:24-31 | a file named just ".xlsx" is refused, since it has no extension |
| UserController.UploadFileOutcome | controllers/user.js:168-184 | for `UploadFile`, the model of these lines: an upload is stored iff the last component of the client's name is longer than five characters and ends in ".xlsx" ignoring case, and the file is at most 3000000 bytes; a refused upload gets "Only Excel File Is Allowed!"; a stored path starts with "/uploads/filetoupload-" and keeps the client name's last '.'-segment |
| UserController.UploadedEntryIsXlsx | controllers/user.js:13-31 | a stored upload whose client name has no '/' keeps an extension that is "xlsx" up to case |
| UserController.AcceptedExtension | controllers/user.js:14-26 | a file name without '/' that passes the filter has a last '.'-segment that lower-cases to "xlsx" |
| UserController.KeepNumbers | controllers/user.js:197-202 | the kept list is no longer than the rows it reads, and every kept string has 11 characters |
| UserController.KeepNumbersMembership | controllers/user.js:198-201 | a string is kept iff some cell read holds it as a string of 11 characters; empty and non-string cells are never kept |
| UserController.KeepNumbersAppend | controllers/user.js:197-202 | the kept strings follow row order: filtering rows a then b gives a's strings then b's |
| UserController.FetchNumbers | controllers/user.js:195-202 | the loop as written returns the kept strings of rows 1 to rowCount-1, at most max(0, rowCount-1) of them |
| UserController.LastRowNeverRead | controllers/user.js:197 | the rows read as written are exactly the rows before row rowCount, whatever that last row holds |
| UserController.LastRowDropped | controllers/user.js:197 | a sheet whose only row holds "03001234567" yields nothing as written, and that number when every row is read |
| UserController.FetchAllNumbers | controllers/user.js:197-202 | the loop over rows 1 to rowCount returns the kept strings of every row, so every row holding an 11-character string contributes it |
| UserController.Details | controllers/user.js:187-213 | a missing file gives "Invalid file name!"; otherwise the success view with the kept strings is shown iff there are any, and "Could not fetch data" if not |
| UserController.VerifyToken | controllers/user.js:128-139 | with `TokenAccepted` as the model of the query at line 129: the reset form is shown for a user whose stored token equals the link's token and whose expiry is strictly later than now; the 404 page is shown iff no user qualifies |
| UserController.ForgotPassword | controllers/user.js:95-126 | an unknown email gets no link, only "User with this email does not exist"; otherwise the name, email, password and files are unchanged, the mailed link carries the new token, and that token alone is accepted, at every time strictly before now + 3600000 |
| UserController.ResetPassword | controllers/user.js:141-153 | an unknown id gives the 404 page; otherwise the new hash is stored, the token is set to "" and the expiry to null, so no token is accepted afterwards |

## Left out

- helpers/email.js is not part of this model. It wraps the mail transport, which is I/O.
- The `testing` handler (controllers/user.js:218-228) is left out. It is an outbound HTTP call to the
  SMS gateway, followed by reading its JSON.
- Chunked bulk-SMS planning, dispatch and sent-chunk tracking are not in these files, so they are not modelled.
- Left out as framework plumbing:
  - login, signup and logout (passport strategies, sessions, flash messages);
  - the home, dashboard, upload and testing views;
  - view rendering itself (a rendered page is a value).
- `getLoginValidation` (helpers/validation.js:5-29) is left out. It is the reset gate without the
  password comparison and is not part of the modelled core.
- Left out as library code:
  - bcrypt hashing and comparison: the hash is a parameter;
  - Mongoose `findOne`, `findOneAndUpdate` and `save`: the record a query finds is a parameter;
  - multer's disk writes;
  - exceljs file reading, including a read failure or a missing "Sheet1";
  - express-validator's checks: their error list is an input.
- Upload, then `findFile`, is not a round trip. The upload pushes a bare string, but the schema stores
  objects with a `path`. No such property is claimed.
- `forgotPassword`: the mail is not modelled. Neither is the page shown when sending succeeds or fails.
- `resetPassword`: the failure of `save` and the user id passed back to the page are not modelled.
- Lengths count characters. JavaScript counts UTF-16 code units, so the two differ only for characters
  outside the Basic Multilingual Plane.
- `toLowerCase` is modelled for ASCII letters only. No other character lower-cases into one of
  ".xlsx", so the filter decides the same way.
- `path.extname` follows the POSIX rules. Windows separators are not modelled.
- `validateNumber` reads `req.body.mobile` as a string. JavaScript first converts a missing value to the
  text "undefined", which the pattern rejects anyway.
- The `details` loop reads rows 1 to rowCount-1, and the model follows the code. It does not exclude a
  header row, and it never reads the last row: see Findings. It does not reject null or short values
  before matching. Instead, the 11-character test rejects them.
- UserModel.User.SearchFile: its contract and body are the same as FindFile's, as in the source. It adds
  no separate guarantee.

## Findings

| source | as written | input that shows it | evidently intended | confidence | as-written member | corrected member |
|---|---|---|---|---|---|---|
| controllers/user.js:197 | the row index runs from 1 while it is below rowCount. Worksheet rows are numbered from 1 and rowCount is the number of the last row, so the last row is never read | a Sheet1 whose only row holds "03001234567": rowCount is 1, no row is read, and the page says "Could not fetch data" | read rows 1 to rowCount | medium, not executed | UserController.FetchNumbers | UserController.FetchAllNumbers |

`UserController.Details` keeps the behaviour of the code as written. `UserController.FetchAllNumbers` is
the corrected loop. It is proved to return every qualifying cell of every row.
