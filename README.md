# Face recognition attendance: a Dafny model

This project models the core of `facial_recognition.py`, a single-operator
access-control and attendance program. The program has four parts.

- **Identity ledger** (`records.csv`). Enrolment numbers a new person as the
  number of rows plus one and appends their row. The header is written only
  when the file is first created.
- **Encrypted face store** (`certified/<id>/`). Each enrolment session writes
  up to ten photos there, each encrypted as it is saved.
- **Verification.** The operator claims an email. The program finds the first
  row carrying it and builds a gallery from that person's stored photos. It then
  takes one picture and grants access when the first face in it matches some
  gallery encoding.
- **Attendance ledger** (`attendance.csv`). A grant appends one
  (email, date, time) row. The history for an email is those rows, in file order.

The files on disk are the fields of the class `Store.FileStore`:
`records`, `attendance`, `keyFile` and `certified`. A CSV file is an
`Option<Table<R>>` whose `None` means the file does not exist. The operations
that change files are methods with `modifies` clauses:

- `LoadOrCreateKey`
- `WriteCsv`
- `TakeAttendance`
- `NewUser`, with `RegisterAndCapture`, `MakeFolder`, `CapturePhotos` and `SavePhoto`
- `Enroll`
- `ExistingUser`

The read-only scans are methods over a snapshot of a file: the row count of
`user_id`, the email scan, `os.listdir`, the gallery loop and
`show_attendance`. Each one is proved against a specification function.
`ExistingUser` is proved against the ghost function `Store.Verify`, which
gives the outcome in the program's order. It is `Granted`, `KeyRejected`
(`Fernet(key)` raised `ValueError`), or a denial with one of these reasons:

1. no records file
2. unknown email
3. no usable stored photo (checked after the key)
4. camera not open
5. picture not taken
6. no face in the picture
7. first face not recognised

The foreign capabilities are the function-valued fields of
`Faces.Capabilities`. Nothing is assumed about them beyond their being functions (see "## Left out" for what that leaves out of Fernet):

- whether `Fernet(key)` accepts a key (it raises `ValueError` otherwise)
- Fernet encryption and decryption (decryption may fail)
- JPEG encoding and decoding (decoding may fail)
- BGR-to-RGB conversion
- face encoding
- the per-pair verdict of `compare_faces`

The camera, the keyboard and the clock are inputs:

- whether the camera opened
- the frame read (or its failure)
- a stream of capture-loop ticks, each a failed read or a shown frame with the
  raw `waitKey` code and the timestamp string
- the date and time strings
- the freshly generated key

The code behaves as follows in these cases, and the model does the same:

- **Probe faces.** `existing_user` returns inside the first iteration of
  `for encoding in face_encodings`, so only the first face in the picture is
  compared (`Store.OnlyFirstProbeFaceCounts`).
- **Camera failure.** Access is denied when the camera is not open and when the
  read fails. Both checks come after the gallery is built.
- **Denial reasons.** Each denial prints its own message, but `existing_user`
  always returns `(False, "")`. `Verify` keeps the reason and `ExistingUser`
  returns only the pair.
- **Malformed key file.** `Fernet(key)` raises `ValueError` for a key that is
  not 32 url-safe base64-encoded bytes, and `main` catches it, prints it and
  ends. In `new_user` this happens right after the key is loaded, before the
  row is written and the folder created, so neither is written
  (`Store.FileStore.NewUser` with `raised` set). In `existing_user` it happens
  once the email is found, before the gallery is built
  (`Store.KeyRejectedExactly`). Both methods return a `raised` flag for it.
- **Key that decrypts nothing.** A well-formed key other than the one the
  photos were encrypted with makes every stored photo unusable, so the claim is
  denied for lack of data (`Store.UndecryptableGalleryDenies`).
- `existing_user` calls `load_or_create_key` only once the email is found.
  When no key exists at that point, it creates one.
- Stored photos go to the face encoder without the BGR-to-RGB conversion that
  the probe frame gets. This is why `toRgb` appears only on the probe path.
- Only a lower-case `q` (code 113) ends the capture loop, although the
  on-screen text says "Q". A key code is compared after `& 0xFF`, written
  `code % 256`.

## Model

| member | source | states |
|---|---|---|
| `Csv.Appended` | facial_recognition.py:157-172 | A write creates an absent file holding the given header and the row. On an existing file it keeps the header and all earlier rows and appends exactly one row. |
| `Decimal.NatToString` | facial_recognition.py:189 | `str(n)` of a natural number is a non-empty string of decimal digits. |
| `Decimal.IntToString` | facial_recognition.py:189 | `str(user_num)`: a non-empty string that starts with a minus sign exactly when the number is negative, and otherwise is all digits. |
| `Decimal.DigitsValueOfNatToString` | facial_recognition.py:189 | The decimal numeral `str(user_num)` reads back as the number. |
| `Decimal.NatToStringInjective` | facial_recognition.py:189-193 | Different ids give different numerals, and so different `certified/<id>` folders. |
| `Identities.UserId` | facial_recognition.py:99-120 | Returns 1 when records.csv is absent, otherwise the number of data rows plus 1, counted row by row. |
| `Identities.Info.WithId` | facial_recognition.py:190 | `records["id"] = user_id_check`: the operator's five fields with the id added as the sixth column. |
| `Identities.FirstWithEmail` | facial_recognition.py:319-333 | Gives the index of the first row in file order whose email equals the claim. Every earlier row has a different email. When it gives none, no row has that email. |
| `Identities.Lookup` | facial_recognition.py:319-333 | The row found carries the claimed email and is in the file. Nothing is found exactly when no row has that email. |
| `Identities.FindByEmail` | facial_recognition.py:316-337 | The scan with its early `break` returns exactly the first matching row, or nothing. |
| `Identities.LookupAfterAppend` | facial_recognition.py:320-333 | Appending a row never changes the row an email already finds. The new row is found only when no earlier row has its email. |
| `Identities.IdsUnique` | facial_recognition.py:117-120 | When every id is its row's 1-based position, no two rows share an id. |
| `Identities.AppendKeepsIdsSequential` | facial_recognition.py:189-191 | Appending the row that `user_id` numbered keeps every id equal to its row position. |
| `Attendance.History` | facial_recognition.py:480-483 | An email's history has at most one entry per attendance row. |
| `Attendance.ShowAttendance` | facial_recognition.py:464-483 | Gives nothing for an absent file. Otherwise gives the (date, time) of exactly the rows whose email equals the argument, in file order. |
| `Attendance.HistoryAppend` | facial_recognition.py:480-483 | One more row adds its (date, time) to the end of the history exactly when its email is the one asked about. Earlier entries are unchanged. |
| `Attendance.HistoryAfterRecords` | facial_recognition.py:445-460 | Recording k attendances for an email lengthens its history by exactly k, and the earlier history stays as its prefix. |
| `Attendance.HistoryMembers` | facial_recognition.py:480-483 | A (date, time) pair is in an email's history exactly when some row holds that email, date and time. |
| `Faces.FirstEncoding` | facial_recognition.py:352-373 | A stored file that fails to decrypt gives no encoding (the `InvalidToken` skip). Any encoding given is the first face encoding of the decoded picture. Conversely, a file that decrypts, decodes and shows a face gives exactly its first encoding. |
| `Faces.ListDir` | facial_recognition.py:349 | Lists every file of the folder exactly once, in an order left open. |
| `Faces.GalleryInOrder` | facial_recognition.py:349-373 | The gallery has at most one entry per stored file. |
| `Faces.BuildGallery` | facial_recognition.py:347-373 | The loop gives the gallery of the visited files. A file that fails to decrypt, fails to decode or shows no face is skipped; any other file adds its first encoding. The id list has the same length and holds only the claimed id. |
| `Faces.CompareFaces` | facial_recognition.py:412 | Gives one verdict per gallery encoding: whether it matches the probe encoding. |
| `Faces.Any` | facial_recognition.py:415 | Python's `any(matches)`: true exactly when some verdict in the list is true. |
| `Faces.GalleryMembers` | facial_recognition.py:369-373 | An encoding is in the gallery exactly when it is the first encoding of some listed file. |
| `Faces.GalleryEmptyIff` | facial_recognition.py:376-378 | Whatever the listing order, the gallery is empty exactly when no stored file yields an encoding. |
| `Faces.GalleryMatchIff` | facial_recognition.py:411-415 | Whatever the listing order, `any(compare_faces(gallery, probe))` holds exactly when some stored file yields an encoding that matches the probe. |
| `Faces.MatchInGallery` | facial_recognition.py:412-415 | A match found in the gallery comes from some stored file of the folder. |
| `Faces.MatchInFolder` | facial_recognition.py:412-415 | A stored file whose encoding matches the probe makes `any(compare_faces(...))` true. |
| `Capture.KeyByte` | facial_recognition.py:257 | `waitKey(1) & 0xFF` is a byte that agrees with the raw code modulo 256. |
| `Capture.Shots` | facial_recognition.py:216-275 | A session takes at most 10 minus the photos already taken, and the k-th new photo gets index count + k + 1. From 0 that is 1..10, the `photo_count+1` in the file name. |
| `Capture.ShotsStep` | facial_recognition.py:219-279 | A failed read or a q ends the loop. A space press takes one photo and adds one to the count. Any other key only moves on. |
| `Capture.PhotoCount` | facial_recognition.py:219-275 | The final `photo_count` is the smaller of the photos still allowed and the space presses before the first failed read or q. |
| `Capture.IgnoredAfterStop` | facial_recognition.py:219-279 | Nothing after a failed read or a q is ever looked at. |
| `Capture.ShotsFromSpacePresses` | facial_recognition.py:259-275 | Every photo is a frame that was shown while space was pressed, with that tick's timestamp. |
| `Capture.FileName` | facial_recognition.py:261 | A photo's file name starts with `<id>_` and ends with `.jpg`. |
| `Capture.Stored` | facial_recognition.py:264-272 | What a saved photo's file holds after the overwrite: a Fernet token, under the key in use, of the frame's JPEG bytes (one token standing for whichever one that write produced). |
| `Capture.Saved` | facial_recognition.py:260-272 | The folder after a session's writes, in order. Writing never removes a file that was already there. |
| `Capture.FileNamesDistinct` | facial_recognition.py:261 | `<id>_<index>_<stamp>.jpg` names differ for different indices, whatever the timestamps. |
| `Capture.SavedAppend` | facial_recognition.py:260-272 | Saving one more photo adds its file, holding its ciphertext, to the folder. |
| `Capture.SavedHoldsEveryShot` | facial_recognition.py:260-272 | After a session every photo is in the folder under its own name and holds the encryption of its JPEG bytes. |
| `Capture.SavedOnlyCiphertext` | facial_recognition.py:264-272 | After a session each file in the folder is either untouched or the ciphertext of one of the session's photos. No plaintext stays on disk. |
| `Store.Verify` | facial_recognition.py:310-425 | The outcome of `existing_user`, with its checks in the program's order: records file, email, `Fernet(key)`, gallery, camera, picture, probe faces, match. |
| `Store.FolderOf` | facial_recognition.py:340-347 | The files of `certified/<id>` as `os.path.isdir` and `os.listdir` see them. A missing folder has no files, so its gallery is empty. |
| `Store.KeyRejectedExactly` | facial_recognition.py:340-344 | `existing_user` raises `ValueError` exactly when the email is on file and Fernet rejects the key loaded for it. |
| `Store.GrantedExactly` | facial_recognition.py:406-421 | Access is granted exactly when all of these hold: the email is on file, Fernet accepts the key, the camera opened, a picture was taken, it shows a face, and its first face matches a stored encoding of the claimed identity. |
| `Store.OnlyFirstProbeFaceCounts` | facial_recognition.py:411-425 | Two pictures whose first faces encode alike get the same decision. |
| `Store.UndecryptableGalleryDenies` | facial_recognition.py:352-378 | When Fernet accepts the key but no stored photo decrypts under it, a known claim is denied for lack of data, before the camera is checked. |
| `Store.DuplicateEmailShadowed` | facial_recognition.py:320-333 | A row appended with an email already on file never changes the decision for that email. |
| `Store.EnrolledFaceIsRecognised` | facial_recognition.py:176-425 | Takes a person enrolled under a new email with a key Fernet accepts, one of whose photos decrypts and decodes to a frame showing a face. A later picture whose first face matches that face is granted. |
| `Store.FileStore.LoadOrCreateKey` | facial_recognition.py:38-52 | Returns the persisted key unchanged. When there is none, persists the fresh key and returns it. The result is `Store.KeyAfterLoad(old key file, fresh key)`, the key every later contract refers to. |
| `Store.FileStore.WriteCsv` | facial_recognition.py:149-172 | records.csv becomes `Appended(old file, identity header, record)`. |
| `Store.FileStore.TakeAttendance` | facial_recognition.py:429-460 | attendance.csv gains exactly one (email, date, time) row, with the header written first if the file is new. |
| `Store.FileStore.NewUser` | facial_recognition.py:176-288 | Always loads (or creates) the key. When Fernet rejects it, `raised` is set and records.csv and the folders are unchanged. Otherwise it writes the row with `id = str(user_num)` and creates the folder before the camera check, so both persist when the camera fails. The final count is at most 10. It is 0 when the camera fails and otherwise the length of `Shots`. The folder ends as the old folder with every photo's ciphertext saved. |
| `Store.FileStore.RegisterAndCapture` | facial_recognition.py:189-279 | After the key is accepted: records.csv gains the identity row, the folder exists, and it holds the session's encrypted photos (none when the camera fails). |
| `Store.FileStore.MakeFolder` | facial_recognition.py:193-196 | Creates an empty `certified/<id>` folder when it is missing. An existing folder keeps its files. |
| `Store.FileStore.CapturePhotos` | facial_recognition.py:216-279 | The capture loop saves exactly the photos of `Shots(ticks, 0)`, each encrypted under its own name, and returns their number. |
| `Store.FileStore.SavePhoto` | facial_recognition.py:259-275 | One space press writes `<id>_<index>_<stamp>.jpg` into the identity's folder holding the encryption of the frame's JPEG bytes. Nothing else changes. |
| `Store.FileStore.Enroll` | facial_recognition.py:553-556 | `user_id` followed by `new_user` leaves the key file holding the loaded key. Unless Fernet rejects the key, records.csv becomes `Appended(old file, identity header, row)`, with the row numbered by its position. Ids therefore stay sequential, and the session's photos go to that row's folder. When the key is rejected, records.csv and the folders are unchanged. |
| `Store.FileStore.ExistingUser` | facial_recognition.py:293-425 | Returns `(true, email)` and appends one attendance row exactly when `Verify` grants. Otherwise returns `(false, "")` and leaves attendance.csv unchanged. `raised` is set exactly when `Verify` gives `KeyRejected`. The key is loaded, and created if missing, exactly when the email is on file. |

## Left out

- Camera and window calls (`cv2.VideoCapture`, `read`, `imshow`, `putText`, `waitKey`, `destroyAllWindows`): device and UI I/O. They become inputs: the camera-opened flag, the frame read, and the stream of capture-loop ticks.
- The capture loop polls the camera forever while no key is pressed. The model reads a finite tick stream, and running out of ticks ends the session.
- Face detection, encoding and comparison (`face_recognition`), Fernet and key generation, and image encoding and decoding: foreign code. They are uninterpreted function fields of `Faces.Capabilities`. Decryption and decoding may fail.
- Capture.Stored: Fernet puts the current time and a random IV into every token, but `encrypt` is a function of the key and the plaintext only. A file therefore stands for whichever token that write produced, and two photos with identical JPEG bytes get identical files in the model. No contract compares the bytes of two files, and every proved property holds whichever token is written.
- Faces.ListDir: `Folder` maps names to readable file contents, so a sub-directory inside `certified/<id>` cannot be represented. In the program, `open(pic_path, "rb")` (outside the `try` of the gallery loop) would raise `IsADirectoryError` on one, which `main` does not catch. The model's folders hold only the files `new_user` writes.
- The plaintext JPEG that `cv2.imwrite` leaves on disk for an instant before it is overwritten: each save is modelled as the final encrypted write only.
- CSV quoting and text encoding, and the `strftime` formats of dates, times and timestamps: library formatting. Rows are records, and the time strings are inputs.
- A records or attendance file that exists but has no header line (created by hand, for instance) cannot be represented. The model's files are only those these writers create.
- Field-name checks done by `csv.DictReader` and `csv.DictWriter` (a missing `email` column, keys that differ from an existing header): the model's rows always carry the fixed fields.
- The `ValueError` that `Fernet(key)` raises is returned as a `raised` flag rather than unwinding to `main`. The model does not follow `main` past that point: `main` prints the error and the program ends.
- `menu`, `attendance_menu`, `user_info`, `main`'s dispatch and `exit()`, `file_creation` and the console `print`s: console and file-system plumbing. `main`'s enrolment path is kept as `Enroll`.
- Concurrency between processes sharing the files: the program is single-process and takes no locks.
- Path handling in `os.path.join`, for example an id containing a path separator: ids here are numerals.
