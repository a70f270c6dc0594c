/** The encrypted face store under certified/<id>/ and the match decision.
    The cryptography, image codecs and face library are foreign: they enter
    as the function-valued fields of `Capabilities`, about which nothing is
    assumed. */
module Faces {
  import opened Wrappers

  type Bytes = seq<bv8>
  type Key = seq<bv8>
  /** A decoded frame (a pixel array); its contents never matter here. */
  type Image = seq<int>
  /** A face embedding, as face_recognition.face_encodings returns them. */
  type Encoding = seq<real>

  datatype Capabilities = Capabilities(
    keyValid: Key -> bool,                   // Fernet(key) accepts the key instead of raising ValueError
    encrypt: (Key, Bytes) -> Bytes,          // Fernet(key).encrypt
    decrypt: (Key, Bytes) -> Option<Bytes>,  // Fernet(key).decrypt; None when it raises
    imencode: Image -> Bytes,                // the JPEG bytes cv2.imwrite stores
    imdecode: Bytes -> Option<Image>,        // np.frombuffer + cv2.imdecode; None when it returns None
    toRgb: Image -> Image,                   // cv2.cvtColor(frame, COLOR_BGR2RGB)
    faceEncodings: Image -> seq<Encoding>,   // face_locations + face_encodings
    sameFace: (Encoding, Encoding) -> bool   // one entry of compare_faces(known, candidate)
  )

  /** The files of one certified/<id> folder, by file name. */
  type Folder = map<string, Bytes>

  /** What one stored file adds to the gallery: nothing when it does not
      decrypt, does not decode or shows no face; otherwise the encoding of
      the first face found in it. */
  function FirstEncoding(caps: Capabilities, key: Key, sample: Bytes): (r: Option<Encoding>)
    ensures caps.decrypt(key, sample).None? ==> r.None?
    ensures r.Some? ==> exists img :: caps.imdecode(caps.decrypt(key, sample).value) == Some(img) &&
                                      caps.faceEncodings(img) != [] && r.value == caps.faceEncodings(img)[0]
    ensures caps.decrypt(key, sample).Some? && caps.imdecode(caps.decrypt(key, sample).value).Some? &&
            caps.faceEncodings(caps.imdecode(caps.decrypt(key, sample).value).value) != [] ==>
              r == Some(caps.faceEncodings(caps.imdecode(caps.decrypt(key, sample).value).value)[0])
  {
    match caps.decrypt(key, sample)
    case None => None
    case Some(plain) =>
      match caps.imdecode(plain)
      case None => None
      case Some(img) =>
        var encodings := caps.faceEncodings(img);
        if |encodings| == 0 then None else Some(encodings[0])
  }

  /** `names` is what os.listdir may return for `folder`: every file name
      once, in some order. */
  ghost predicate IsListing(names: seq<string>, folder: Folder)
  {
    && (forall i :: 0 <= i < |names| ==> names[i] in folder)
    && (forall n :: n in folder ==> n in names)
    && (forall i, j :: 0 <= i < j < |names| ==> names[i] != names[j])
  }

  /** os.listdir: the folder's file names, in an order the model leaves open. */
  method ListDir(folder: Folder) returns (names: seq<string>)
    ensures IsListing(names, folder)
  {
    names := [];
    var rest := folder.Keys;
    while rest != {}
      invariant rest <= folder.Keys
      invariant forall i :: 0 <= i < |names| ==> names[i] in folder && names[i] !in rest
      invariant forall n :: n in folder ==> n in rest || n in names
      invariant forall i, j :: 0 <= i < j < |names| ==> names[i] != names[j]
      decreases rest
    {
      var n :| n in rest;
      names := names + [n];
      rest := rest - {n};
    }
  }

  /** The gallery existing_user builds by visiting the files in `names`
      order, keeping at most the first encoding of each. */
  function GalleryInOrder(caps: Capabilities, key: Key, folder: Folder, names: seq<string>): (g: seq<Encoding>)
    requires forall i :: 0 <= i < |names| ==> names[i] in folder
    ensures |g| <= |names|
    decreases |names|
  {
    if names == [] then []
    else
      var front := GalleryInOrder(caps, key, folder, names[..|names| - 1]);
      match FirstEncoding(caps, key, folder[names[|names| - 1]])
      case None => front
      case Some(e) => front + [e]
  }

  /** The gallery loop of existing_user: each file is decrypted, decoded and
      encoded; a failure at any step skips the file; a file showing faces
      contributes its first encoding, and the claimed id goes alongside. */
  method BuildGallery(caps: Capabilities, key: Key, folder: Folder, names: seq<string>, idMatch: string)
    returns (storedEncodings: seq<Encoding>, storedIds: seq<string>)
    requires forall i :: 0 <= i < |names| ==> names[i] in folder
    ensures storedEncodings == GalleryInOrder(caps, key, folder, names)
    ensures |storedIds| == |storedEncodings|
    ensures forall k :: 0 <= k < |storedIds| ==> storedIds[k] == idMatch
  {
    storedEncodings, storedIds := [], [];
    for i := 0 to |names|
      invariant storedEncodings == GalleryInOrder(caps, key, folder, names[..i])
      invariant |storedIds| == |storedEncodings|
      invariant forall k :: 0 <= k < |storedIds| ==> storedIds[k] == idMatch
    {
      assert names[..i + 1][..i] == names[..i];
      var encryptedData := folder[names[i]];
      var decryptedData := caps.decrypt(key, encryptedData);
      if decryptedData.None? {
        continue;
      }
      var img := caps.imdecode(decryptedData.value);
      if img.None? {
        continue;
      }
      var encodings := caps.faceEncodings(img.value);
      if |encodings| > 0 {
        storedEncodings := storedEncodings + [encodings[0]];
        storedIds := storedIds + [idMatch];
      }
    }
    assert names[..|names|] == names;
  }

  /** face_recognition.compare_faces(known, candidate): one verdict per known encoding. */
  function CompareFaces(caps: Capabilities, known: seq<Encoding>, candidate: Encoding): (matches: seq<bool>)
    ensures |matches| == |known|
    ensures forall k :: 0 <= k < |known| ==> matches[k] == caps.sameFace(known[k], candidate)
  {
    seq(|known|, k requires 0 <= k < |known| => caps.sameFace(known[k], candidate))
  }

  /** Python's any(). */
  function Any(bs: seq<bool>): (b: bool)
    ensures b <==> exists i :: 0 <= i < |bs| && bs[i]
  {
    true in bs
  }

  /** Some file of the folder contributes to the gallery. */
  ghost predicate HasGallery(caps: Capabilities, key: Key, folder: Folder)
  {
    exists n :: n in folder && FirstEncoding(caps, key, folder[n]).Some?
  }

  /** Some file of the folder contributes an encoding that matches `probe`. */
  ghost predicate GalleryMatches(caps: Capabilities, key: Key, folder: Folder, probe: Encoding)
  {
    exists n :: n in folder && FirstEncoding(caps, key, folder[n]).Some? &&
                caps.sameFace(FirstEncoding(caps, key, folder[n]).value, probe)
  }

  /** The gallery holds exactly the first encodings of the listed files that
      yield one. */
  lemma {:induction false} GalleryMembers(caps: Capabilities, key: Key, folder: Folder, names: seq<string>, e: Encoding)
    requires forall i :: 0 <= i < |names| ==> names[i] in folder
    ensures e in GalleryInOrder(caps, key, folder, names) <==>
            exists i :: 0 <= i < |names| && FirstEncoding(caps, key, folder[names[i]]) == Some(e)
    decreases |names|
  {
    if names != [] {
      var front := names[..|names| - 1];
      GalleryMembers(caps, key, folder, front, e);
      if exists i :: 0 <= i < |names| && FirstEncoding(caps, key, folder[names[i]]) == Some(e) {
        var i :| 0 <= i < |names| && FirstEncoding(caps, key, folder[names[i]]) == Some(e);
        if i < |front| {
          assert front[i] == names[i];
        }
      }
    }
  }

  /** For any order os.listdir picks, the gallery is empty exactly when no
      file of the folder yields an encoding. */
  lemma GalleryEmptyIff(caps: Capabilities, key: Key, folder: Folder, names: seq<string>)
    requires IsListing(names, folder)
    ensures GalleryInOrder(caps, key, folder, names) == [] <==> !HasGallery(caps, key, folder)
  {
    var g := GalleryInOrder(caps, key, folder, names);
    if g != [] {
      GalleryMembers(caps, key, folder, names, g[0]);
      var i :| 0 <= i < |names| && FirstEncoding(caps, key, folder[names[i]]) == Some(g[0]);
      assert names[i] in folder;
    }
    if HasGallery(caps, key, folder) {
      var n :| n in folder && FirstEncoding(caps, key, folder[n]).Some?;
      var i :| 0 <= i < |names| && names[i] == n;
      GalleryMembers(caps, key, folder, names, FirstEncoding(caps, key, folder[n]).value);
    }
  }

  /** For any order os.listdir picks, any(compare_faces(gallery, probe))
      holds exactly when some file of the folder contributes a matching
      encoding: the decision does not depend on the listing order. */
  lemma GalleryMatchIff(caps: Capabilities, key: Key, folder: Folder, names: seq<string>, probe: Encoding)
    requires IsListing(names, folder)
    ensures Any(CompareFaces(caps, GalleryInOrder(caps, key, folder, names), probe)) <==>
            GalleryMatches(caps, key, folder, probe)
  {
    if Any(CompareFaces(caps, GalleryInOrder(caps, key, folder, names), probe)) {
      MatchInGallery(caps, key, folder, names, probe);
    }
    if GalleryMatches(caps, key, folder, probe) {
      MatchInFolder(caps, key, folder, names, probe);
    }
  }

  lemma MatchInGallery(caps: Capabilities, key: Key, folder: Folder, names: seq<string>, probe: Encoding)
    requires IsListing(names, folder)
    requires Any(CompareFaces(caps, GalleryInOrder(caps, key, folder, names), probe))
    ensures GalleryMatches(caps, key, folder, probe)
  {
    var g := GalleryInOrder(caps, key, folder, names);
    var m := CompareFaces(caps, g, probe);
    var k :| 0 <= k < |m| && m[k];
    GalleryMembers(caps, key, folder, names, g[k]);
    var i :| 0 <= i < |names| && FirstEncoding(caps, key, folder[names[i]]) == Some(g[k]);
    var n := names[i];
    assert n in folder && FirstEncoding(caps, key, folder[n]).Some? &&
           caps.sameFace(FirstEncoding(caps, key, folder[n]).value, probe);
  }

  lemma MatchInFolder(caps: Capabilities, key: Key, folder: Folder, names: seq<string>, probe: Encoding)
    requires IsListing(names, folder)
    requires GalleryMatches(caps, key, folder, probe)
    ensures Any(CompareFaces(caps, GalleryInOrder(caps, key, folder, names), probe))
  {
    var g := GalleryInOrder(caps, key, folder, names);
    var m := CompareFaces(caps, g, probe);
    var n :| n in folder && FirstEncoding(caps, key, folder[n]).Some? &&
             caps.sameFace(FirstEncoding(caps, key, folder[n]).value, probe);
    var e := FirstEncoding(caps, key, folder[n]).value;
    var i :| 0 <= i < |names| && names[i] == n;
    GalleryMembers(caps, key, folder, names, e);
    var k :| 0 <= k < |g| && g[k] == e;
    assert m[k];
  }
}
