/** The working directory of the program and the two workflows that change
    it: enrolment (new_user, after user_id) and verification (existing_user,
    ending in take_attendance on success). */
module Store {
  import opened Wrappers
  import opened Csv
  import opened Faces
  import Identities
  import Attendance
  import Capture
  import Decimal

  /** Why existing_user denies access, one per early return. */
  datatype Denial =
    | NoRecords      // records.csv does not exist
    | EmailNotFound  // no row carries the claimed email
    | NoData         // no stored photo yields an encoding
    | CameraClosed   // the camera did not open
    | NoPicture      // video.read() failed
    | NoFaces        // the probe frame shows no face
    | NotRecognised  // the first probe face matches no stored encoding

  /** How existing_user ends: access granted, access denied, or the
      ValueError Fernet(key) raises on a malformed key (which main catches). */
  datatype Verdict = Granted | Denied(reason: Denial) | KeyRejected

  /** os.path.join(certified_folder, id) as seen by os.path.isdir: an absent
      folder has no files. */
  function FolderOf(certified: map<string, Folder>, id: string): Folder
  {
    if id in certified then certified[id] else map[]
  }

  /** The key load_or_create_key returns: the persisted one, or `freshKey`
      when none is persisted yet. */
  function KeyAfterLoad(keyFile: Option<Key>, freshKey: Key): Key
  {
    keyFile.GetOr(freshKey)
  }

  /** The decision existing_user reaches for the claim `email`, checking in
      its order: records, email, key, gallery, camera, picture, probe faces, match. */
  ghost function Verify(records: Option<Table<Identities.Identity>>, certified: map<string, Folder>,
                        keyFile: Option<Key>, freshKey: Key, cameraOpened: bool, frame: Option<Image>,
                        email: string, caps: Capabilities): Verdict
  {
    if records.None? then Denied(NoRecords)
    else match Identities.Lookup(records.value.rows, email)
      case None => Denied(EmailNotFound)
      case Some(who) =>
        var key := KeyAfterLoad(keyFile, freshKey);
        var folder := FolderOf(certified, who.id);
        if !caps.keyValid(key) then KeyRejected
        else if !HasGallery(caps, key, folder) then Denied(NoData)
        else if !cameraOpened then Denied(CameraClosed)
        else if frame.None? then Denied(NoPicture)
        else
          var probe := caps.faceEncodings(caps.toRgb(frame.value));
          if probe == [] then Denied(NoFaces)
          else if GalleryMatches(caps, key, folder, probe[0]) then Granted
          else Denied(NotRecognised)
  }

  /** The claim names an enrolled email: the point from which existing_user
      calls load_or_create_key. */
  predicate EmailKnown(records: Option<Table<Identities.Identity>>, email: string)
  {
    records.Some? && Identities.Lookup(records.value.rows, email).Some?
  }

  /** existing_user raises exactly when the email is on file and the key it
      loads is one Fernet rejects; no earlier check depends on the key. */
  lemma KeyRejectedExactly(records: Option<Table<Identities.Identity>>, certified: map<string, Folder>,
                           keyFile: Option<Key>, freshKey: Key, cameraOpened: bool, frame: Option<Image>,
                           email: string, caps: Capabilities)
    ensures Verify(records, certified, keyFile, freshKey, cameraOpened, frame, email, caps) == KeyRejected <==>
            EmailKnown(records, email) && !caps.keyValid(KeyAfterLoad(keyFile, freshKey))
  {
  }

  /** Access is granted exactly when the email is on file, the key is valid, the camera gives
      a picture showing a face, and the first face found matches an
      encoding from one of the claimed identity's stored photos. */
  lemma GrantedExactly(records: Option<Table<Identities.Identity>>, certified: map<string, Folder>,
                       keyFile: Option<Key>, freshKey: Key, cameraOpened: bool, frame: Option<Image>,
                       email: string, caps: Capabilities)
    ensures Verify(records, certified, keyFile, freshKey, cameraOpened, frame, email, caps) == Granted <==>
            && EmailKnown(records, email)
            && caps.keyValid(KeyAfterLoad(keyFile, freshKey))
            && cameraOpened
            && frame.Some?
            && caps.faceEncodings(caps.toRgb(frame.value)) != []
            && GalleryMatches(caps, KeyAfterLoad(keyFile, freshKey),
                              FolderOf(certified, Identities.Lookup(records.value.rows, email).value.id),
                              caps.faceEncodings(caps.toRgb(frame.value))[0])
  {
  }

  /** Only the first face of the probe frame is compared: two frames whose
      first faces encode alike get the same decision, whatever else they show. */
  lemma OnlyFirstProbeFaceCounts(records: Option<Table<Identities.Identity>>, certified: map<string, Folder>,
                                 keyFile: Option<Key>, freshKey: Key, frame1: Image, frame2: Image,
                                 email: string, caps: Capabilities)
    requires caps.faceEncodings(caps.toRgb(frame1)) != [] && caps.faceEncodings(caps.toRgb(frame2)) != []
    requires caps.faceEncodings(caps.toRgb(frame1))[0] == caps.faceEncodings(caps.toRgb(frame2))[0]
    ensures Verify(records, certified, keyFile, freshKey, true, Some(frame1), email, caps) ==
            Verify(records, certified, keyFile, freshKey, true, Some(frame2), email, caps)
  {
  }

  /** When no stored photo of the claimed identity decrypts under the key
      in use (say secret.key was replaced), the claim is denied for lack of
      data, before the camera is looked at. */
  lemma UndecryptableGalleryDenies(records: Option<Table<Identities.Identity>>, certified: map<string, Folder>,
                                   keyFile: Option<Key>, freshKey: Key, cameraOpened: bool, frame: Option<Image>,
                                   email: string, caps: Capabilities)
    requires EmailKnown(records, email)
    requires caps.keyValid(KeyAfterLoad(keyFile, freshKey))
    requires var folder := FolderOf(certified, Identities.Lookup(records.value.rows, email).value.id);
             forall n :: n in folder ==> caps.decrypt(KeyAfterLoad(keyFile, freshKey), folder[n]).None?
    ensures Verify(records, certified, keyFile, freshKey, cameraOpened, frame, email, caps) == Denied(NoData)
  {
  }

  /** A later identity enrolled with an email already on file never takes
      part in verification: the earlier row keeps answering for that email. */
  lemma DuplicateEmailShadowed(header: seq<string>, rows: seq<Identities.Identity>, row: Identities.Identity,
                               certified: map<string, Folder>, keyFile: Option<Key>, freshKey: Key,
                               cameraOpened: bool, frame: Option<Image>, email: string, caps: Capabilities)
    requires Identities.Lookup(rows, email).Some?
    ensures Verify(Some(Table(header, rows + [row])), certified, keyFile, freshKey, cameraOpened, frame, email, caps) ==
            Verify(Some(Table(header, rows)), certified, keyFile, freshKey, cameraOpened, frame, email, caps)
  {
    Identities.LookupAfterAppend(rows, row, email);
  }

  /** Enrolment followed by verification: a person enrolled with a fresh
      email, one of whose photos decrypts and decodes back to a frame
      showing a face, is granted access when the first face of the probe
      frame matches that face. */
  lemma EnrolledFaceIsRecognised(records: Option<Table<Identities.Identity>>, certified: map<string, Folder>,
                                 key: Key, info: Identities.Info, ticks: seq<Capture.Tick>, k: nat,
                                 freshKey: Key, frame: Image, caps: Capabilities)
    requires Identities.Lookup(Rows(records), info.email).None?
    requires caps.keyValid(key)
    requires k < |Capture.Shots(ticks, 0)|
    requires var shot := Capture.Shots(ticks, 0)[k];
             && caps.decrypt(key, Capture.Stored(caps, key, shot)) == Some(caps.imencode(shot.frame))
             && caps.imdecode(caps.imencode(shot.frame)).Some?
             && caps.faceEncodings(caps.imdecode(caps.imencode(shot.frame)).value) != []
             && caps.faceEncodings(caps.toRgb(frame)) != []
             && caps.sameFace(caps.faceEncodings(caps.imdecode(caps.imencode(shot.frame)).value)[0],
                              caps.faceEncodings(caps.toRgb(frame))[0])
    ensures var id := Decimal.NatToString(|Rows(records)| + 1);
            Verify(Appended(records, Identities.Header, info.WithId(id)),
                   certified[id := Capture.Saved(caps, key, id, FolderOf(certified, id), Capture.Shots(ticks, 0))],
                   Some(key), freshKey, true, Some(frame), info.email, caps) == Granted
  {
    var id := Decimal.NatToString(|Rows(records)| + 1);
    var row := info.WithId(id);
    var shots := Capture.Shots(ticks, 0);
    var shot := shots[k];
    var records' := Appended(records, Identities.Header, row);
    var folder := Capture.Saved(caps, key, id, FolderOf(certified, id), shots);
    var certified' := certified[id := folder];
    Identities.LookupAfterAppend(Rows(records), row, info.email);
    assert Identities.Lookup(records'.value.rows, info.email) == Some(row);
    assert FolderOf(certified', id) == folder;
    Capture.SavedHoldsEveryShot(caps, key, id, FolderOf(certified, id), shots, k);
    var n := Capture.FileName(id, shot.index, shot.stamp);
    assert n in folder && folder[n] == Capture.Stored(caps, key, shot);
    var probe := caps.faceEncodings(caps.toRgb(frame));
    assert FirstEncoding(caps, key, folder[n]).Some? &&
           caps.sameFace(FirstEncoding(caps, key, folder[n]).value, probe[0]);
    assert GalleryMatches(caps, key, folder, probe[0]);
    GrantedExactly(records', certified', Some(key), freshKey, true, Some(frame), info.email, caps);
  }

  /** The files the program reads and writes in its working directory. */
  class FileStore {
    var records: Option<Table<Identities.Identity>>   // records.csv
    var attendance: Option<Table<Attendance.Entry>>   // attendance.csv
    var keyFile: Option<Key>                           // secret.key
    var certified: map<string, Folder>                 // certified/<id>/<file>

    constructor (records: Option<Table<Identities.Identity>>, attendance: Option<Table<Attendance.Entry>>,
                 keyFile: Option<Key>, certified: map<string, Folder>)
      ensures this.records == records && this.attendance == attendance
      ensures this.keyFile == keyFile && this.certified == certified
    {
      this.records := records;
      this.attendance := attendance;
      this.keyFile := keyFile;
      this.certified := certified;
    }

    /** load_or_create_key: the persisted key, unchanged; or, when there is
        none, `freshKey` (Fernet.generate_key), which is persisted. */
    method LoadOrCreateKey(freshKey: Key) returns (key: Key)
      modifies this`keyFile
      ensures old(keyFile).Some? ==> key == old(keyFile).value
      ensures old(keyFile).None? ==> key == freshKey
      ensures keyFile == Some(key)
    {
      if keyFile.None? {
        key := freshKey;
        keyFile := Some(key);
      } else {
        key := keyFile.value;
      }
    }

    /** write_csv: the header on the first write, then always exactly one
        appended row. */
    method WriteCsv(record: Identities.Identity)
      modifies this`records
      ensures records == Appended(old(records), Identities.Header, record)
    {
      records := Appended(records, Identities.Header, record);
    }

    /** take_attendance: one (email, date, time) row appended, the header
        written first when the file is new. */
    method TakeAttendance(email: string, date: string, time: string)
      modifies this`attendance
      ensures attendance == Appended(old(attendance), Attendance.Header, Attendance.Entry(email, date, time))
    {
      attendance := Appended(attendance, Attendance.Header, Attendance.Entry(email, date, time));
    }

    /** new_user: the key is loaded (or created) first, and a key Fernet
        rejects raises (`raised`) before anything else is written. Otherwise
        the identity row and the folder exist before the camera is checked;
        then one encrypted file per space press until ten photos, a q, a
        failed read or the end of the stream. */
    method NewUser(userNum: int, info: Identities.Info, freshKey: Key, cameraOpened: bool,
                   ticks: seq<Capture.Tick>, caps: Capabilities) returns (photoCount: nat, raised: bool)
      modifies this`keyFile, this`records, this`certified
      ensures keyFile == Some(KeyAfterLoad(old(keyFile), freshKey))
      ensures raised == !caps.keyValid(KeyAfterLoad(old(keyFile), freshKey))
      ensures raised ==> records == old(records) && certified == old(certified) && photoCount == 0
      ensures !raised ==> records == Appended(old(records), Identities.Header,
                                              info.WithId(Decimal.IntToString(userNum)))
      ensures photoCount <= Capture.MaxPhotos
      ensures !raised ==> photoCount == if cameraOpened then |Capture.Shots(ticks, 0)| else 0
      ensures !raised ==>
                var id := Decimal.IntToString(userNum);
                certified == old(certified)[id := Capture.Saved(caps, KeyAfterLoad(old(keyFile), freshKey), id,
                                                                FolderOf(old(certified), id),
                                                                if cameraOpened then Capture.Shots(ticks, 0) else [])]
    {
      var key := LoadOrCreateKey(freshKey);
      photoCount := 0;
      raised := !caps.keyValid(key);
      if raised {
        return;
      }
      photoCount := RegisterAndCapture(Decimal.IntToString(userNum), info, key, cameraOpened, ticks, caps);
    }

    /** new_user once Fernet has accepted the key: the row, then the folder,
        then (if the camera opened) the capture loop. */
    method RegisterAndCapture(userIdCheck: string, info: Identities.Info, key: Key, cameraOpened: bool,
                              ticks: seq<Capture.Tick>, caps: Capabilities) returns (photoCount: nat)
      modifies this`records, this`certified
      ensures records == Appended(old(records), Identities.Header, info.WithId(userIdCheck))
      ensures photoCount <= Capture.MaxPhotos
      ensures photoCount == if cameraOpened then |Capture.Shots(ticks, 0)| else 0
      ensures certified == old(certified)[userIdCheck := Capture.Saved(caps, key, userIdCheck,
                                                                       FolderOf(old(certified), userIdCheck),
                                                                       if cameraOpened then Capture.Shots(ticks, 0) else [])]
    {
      WriteCsv(info.WithId(userIdCheck));
      MakeFolder(userIdCheck);
      photoCount := 0;
      if !cameraOpened {
        return;
      }
      photoCount := CapturePhotos(userIdCheck, key, ticks, caps);
    }

    /** os.makedirs(certified/<id>) unless the folder exists: an existing
        folder keeps its files. */
    method MakeFolder(userIdCheck: string)
      modifies this`certified
      ensures certified == old(certified)[userIdCheck := FolderOf(old(certified), userIdCheck)]
    {
      if userIdCheck !in certified {
        certified := certified[userIdCheck := map[]];
      }
    }

    /** The capture loop of new_user, once the camera is open and the
        folder of `userIdCheck` exists: stops at ten photos, a q, a failed
        read or the end of the stream; each space press writes one file. */
    method CapturePhotos(userIdCheck: string, key: Key, ticks: seq<Capture.Tick>, caps: Capabilities)
      returns (photoCount: nat)
      requires userIdCheck in certified
      modifies this`certified
      ensures photoCount == |Capture.Shots(ticks, 0)|
      ensures certified == old(certified)[userIdCheck := Capture.Saved(caps, key, userIdCheck, old(certified)[userIdCheck],
                                                                       Capture.Shots(ticks, 0))]
    {
      ghost var folder0 := certified[userIdCheck];
      ghost var taken: seq<Capture.Shot> := [];
      photoCount := 0;
      var i := 0;
      while photoCount < Capture.MaxPhotos && i < |ticks|
        invariant 0 <= i <= |ticks|
        invariant photoCount <= Capture.MaxPhotos && |taken| == photoCount
        invariant Capture.Shots(ticks, 0) == taken + Capture.Shots(ticks[i..], photoCount)
        invariant certified == old(certified)[userIdCheck := Capture.Saved(caps, key, userIdCheck, folder0, taken)]
        decreases |ticks| - i
      {
        Capture.ShotsStep(ticks, i, photoCount);
        var tick := ticks[i];
        if tick.ReadFailed? {
          assert taken + [] == taken;
          break;
        }
        var keyPressed := Capture.KeyByte(tick.keyCode);
        if keyPressed == Capture.SpaceKey {
          var shot := Capture.Shot(photoCount + 1, tick.frame, tick.stamp);
          SavePhoto(userIdCheck, key, shot, caps);
          Capture.SavedAppend(caps, key, userIdCheck, folder0, taken, shot);
          Capture.ConcatAssoc(taken, [shot], Capture.Shots(ticks[i + 1..], photoCount + 1));
          taken := taken + [shot];
          photoCount := photoCount + 1;
        } else if keyPressed == Capture.QuitKey {
          assert taken + [] == taken;
          break;
        }
        i := i + 1;
      }
      assert taken == Capture.Shots(ticks, 0) by {
        if photoCount == Capture.MaxPhotos || i == |ticks| {
          assert taken + [] == taken;
        }
      }
    }

    /** One space press: the frame is written as
        certified/<id>/<id>_<index>_<stamp>.jpg and at once overwritten by
        its ciphertext. */
    method SavePhoto(userIdCheck: string, key: Key, shot: Capture.Shot, caps: Capabilities)
      requires userIdCheck in certified
      modifies this`certified
      ensures certified == old(certified)[userIdCheck := old(certified)[userIdCheck][
                             Capture.FileName(userIdCheck, shot.index, shot.stamp) := Capture.Stored(caps, key, shot)]]
    {
      var fileName := Capture.FileName(userIdCheck, shot.index, shot.stamp);
      var encryptedData := caps.encrypt(key, caps.imencode(shot.frame));
      certified := certified[userIdCheck := certified[userIdCheck][fileName := encryptedData]];
    }

    /** Option 2 of main: number the new identity with user_id, then enrol
        it with new_user; ids stay the 1-based row positions. */
    method Enroll(info: Identities.Info, freshKey: Key, cameraOpened: bool,
                  ticks: seq<Capture.Tick>, caps: Capabilities) returns (photoCount: nat, raised: bool)
      modifies this`keyFile, this`records, this`certified
      ensures keyFile == Some(KeyAfterLoad(old(keyFile), freshKey))
      ensures raised == !caps.keyValid(KeyAfterLoad(old(keyFile), freshKey))
      ensures raised ==> records == old(records) && certified == old(certified) && photoCount == 0
      ensures !raised ==> records == Appended(old(records), Identities.Header,
                                              info.WithId(Decimal.NatToString(|Rows(old(records))| + 1)))
      ensures Identities.IdsSequential(Rows(old(records))) ==> Identities.IdsSequential(Rows(records))
      ensures !raised ==> photoCount == if cameraOpened then |Capture.Shots(ticks, 0)| else 0
      ensures !raised ==>
                var id := Decimal.NatToString(|Rows(old(records))| + 1);
                certified == old(certified)[id := Capture.Saved(caps, KeyAfterLoad(old(keyFile), freshKey), id,
                                                                FolderOf(old(certified), id),
                                                                if cameraOpened then Capture.Shots(ticks, 0) else [])]
    {
      var userIdNumber := Identities.UserId(records);
      photoCount, raised := NewUser(userIdNumber, info, freshKey, cameraOpened, ticks, caps);
      if !raised && Identities.IdsSequential(Rows(old(records))) {
        Identities.AppendKeepsIdsSequential(Rows(old(records)), info);
      }
    }

    /** existing_user: (true, email) and one attendance row exactly when
        Verify grants; (false, "") and no attendance row otherwise, with
        `raised` set exactly when Fernet rejects the key. The key is loaded
        (and created if missing) once the email is found. */
    method ExistingUser(userEmail: string, freshKey: Key, cameraOpened: bool, frame: Option<Image>,
                        date: string, time: string, caps: Capabilities)
      returns (granted: bool, who: string, raised: bool)
      modifies this`keyFile, this`attendance
      ensures raised == (Verify(old(records), old(certified), old(keyFile), freshKey, cameraOpened, frame,
                                userEmail, caps) == KeyRejected)
      ensures granted == (Verify(old(records), old(certified), old(keyFile), freshKey, cameraOpened, frame,
                                 userEmail, caps) == Granted)
      ensures who == if granted then userEmail else ""
      ensures attendance == if granted
                            then Appended(old(attendance), Attendance.Header, Attendance.Entry(userEmail, date, time))
                            else old(attendance)
      ensures keyFile == if EmailKnown(old(records), userEmail)
                         then Some(KeyAfterLoad(old(keyFile), freshKey)) else old(keyFile)
    {
      if records.None? {
        return false, "", false;
      }
      var found := Identities.FindByEmail(records.value.rows, userEmail);
      if found.None? {
        return false, "", false;
      }
      var idMatch := found.value.id;
      var key := LoadOrCreateKey(freshKey);
      if !caps.keyValid(key) {
        return false, "", true;
      }
      var folder := FolderOf(certified, idMatch);
      var picNames := ListDir(folder);
      var storedEncodings, storedIds := BuildGallery(caps, key, folder, picNames, idMatch);
      GalleryEmptyIff(caps, key, folder, picNames);
      if storedEncodings == [] {
        return false, "", false;
      }
      if !cameraOpened {
        return false, "", false;
      }
      if frame.None? {
        return false, "", false;
      }
      var faceEncodings := caps.faceEncodings(caps.toRgb(frame.value));
      if faceEncodings == [] {
        return false, "", false;
      }
      // `for encoding in face_encodings` returns in its first iteration on
      // both branches, so only the first probe face is ever compared.
      var matches := CompareFaces(caps, storedEncodings, faceEncodings[0]);
      GalleryMatchIff(caps, key, folder, picNames, faceEncodings[0]);
      if Any(matches) {
        TakeAttendance(userEmail, date, time);
        return true, userEmail, false;
      } else {
        return false, "", false;
      }
    }
  }
}
