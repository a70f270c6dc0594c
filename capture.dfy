/** The photo capture loop of new_user as a state machine over a stream of
    ticks: each pass of the loop either fails to read a frame, or shows a
    frame and reads one key code. */
module Capture {
  import opened Faces
  import Decimal

  /** At most this many photos per enrolment session. */
  const MaxPhotos: nat := 10
  /** ord(' '): takes a photo. */
  const SpaceKey: int := 32
  /** ord('q'): ends the session early; an upper-case Q (81) does not. */
  const QuitKey: int := 113

  /** One pass of the loop: video.read() failed, or it returned `frame`,
      cv2.waitKey(1) returned `keyCode`, and the clock read `stamp`
      (already formatted "%Y-%m-%d_%H-%M-%S"). */
  datatype Tick = ReadFailed | Shown(frame: Image, keyCode: int, stamp: string)

  /** A captured photo: its 1-based index in the session, the frame and the timestamp. */
  datatype Shot = Shot(index: nat, frame: Image, stamp: string)

  /** cv2.waitKey(1) & 0xFF. */
  function KeyByte(code: int): (b: int)
    ensures 0 <= b < 256
    ensures (code - b) % 256 == 0
  {
    code % 256
  }

  /** The tick ends the session: a failed read, or the q key. */
  predicate Stops(t: Tick)
  {
    t.ReadFailed? || KeyByte(t.keyCode) == QuitKey
  }

  predicate IsCapture(t: Tick)
  {
    t.Shown? && KeyByte(t.keyCode) == SpaceKey
  }

  /** The photos the loop takes from `ticks` when `count` are already taken. */
  function Shots(ticks: seq<Tick>, count: nat): (shots: seq<Shot>)
    requires count <= MaxPhotos
    ensures |shots| <= MaxPhotos - count
    ensures forall k :: 0 <= k < |shots| ==> shots[k].index == count + k + 1
    decreases |ticks|
  {
    if count == MaxPhotos || ticks == [] then []
    else match ticks[0]
      case ReadFailed => []
      case Shown(frame, code, stamp) =>
        if KeyByte(code) == SpaceKey then [Shot(count + 1, frame, stamp)] + Shots(ticks[1..], count + 1)
        else if KeyByte(code) == QuitKey then []
        else Shots(ticks[1..], count)
  }

  /** One pass of the loop on the stream from position `i` on. */
  lemma ShotsStep(ticks: seq<Tick>, i: nat, count: nat)
    requires i < |ticks| && count < MaxPhotos
    ensures ticks[i].ReadFailed? ==> Shots(ticks[i..], count) == []
    ensures ticks[i].Shown? && KeyByte(ticks[i].keyCode) == SpaceKey ==>
              Shots(ticks[i..], count) == [Shot(count + 1, ticks[i].frame, ticks[i].stamp)] + Shots(ticks[i + 1..], count + 1)
    ensures ticks[i].Shown? && KeyByte(ticks[i].keyCode) == QuitKey ==> Shots(ticks[i..], count) == []
    ensures ticks[i].Shown? && KeyByte(ticks[i].keyCode) != SpaceKey && KeyByte(ticks[i].keyCode) != QuitKey ==>
              Shots(ticks[i..], count) == Shots(ticks[i + 1..], count)
  {
  }

  lemma ConcatAssoc<T>(a: seq<T>, b: seq<T>, c: seq<T>)
    ensures a + (b + c) == (a + b) + c
  {
  }

  /** Space presses before the first tick that stops the session. */
  function Presses(ticks: seq<Tick>): nat
  {
    if ticks == [] || Stops(ticks[0]) then 0
    else (if IsCapture(ticks[0]) then 1 else 0) + Presses(ticks[1..])
  }

  function Min(a: int, b: int): int
  {
    if a <= b then a else b
  }

  /** photo_count at the end of a session: one per space press before the
      first failed read or q, but never more than the photos still allowed. */
  lemma {:induction false} PhotoCount(ticks: seq<Tick>, count: nat)
    requires count <= MaxPhotos
    ensures |Shots(ticks, count)| == Min(MaxPhotos - count, Presses(ticks))
    decreases |ticks|
  {
    if count < MaxPhotos && ticks != [] && !Stops(ticks[0]) {
      if IsCapture(ticks[0]) {
        PhotoCount(ticks[1..], count + 1);
      } else {
        PhotoCount(ticks[1..], count);
      }
    }
  }

  /** Nothing after a failed read or a q press is ever looked at. */
  lemma {:induction false} IgnoredAfterStop(ticks: seq<Tick>, rest: seq<Tick>, count: nat, i: nat)
    requires count <= MaxPhotos
    requires i < |ticks| && Stops(ticks[i])
    ensures Shots(ticks + rest, count) == Shots(ticks, count)
    decreases |ticks|
  {
    assert (ticks + rest)[0] == ticks[0];
    if count < MaxPhotos && i > 0 && !Stops(ticks[0]) {
      assert (ticks + rest)[1..] == ticks[1..] + rest;
      var count' := if IsCapture(ticks[0]) then count + 1 else count;
      IgnoredAfterStop(ticks[1..], rest, count', i - 1);
    }
  }

  /** Every photo is a frame shown while space was pressed. */
  lemma {:induction false} ShotsFromSpacePresses(ticks: seq<Tick>, count: nat, k: nat)
    requires count <= MaxPhotos
    requires k < |Shots(ticks, count)|
    ensures exists i :: 0 <= i < |ticks| && IsCapture(ticks[i]) &&
                        ticks[i].frame == Shots(ticks, count)[k].frame &&
                        ticks[i].stamp == Shots(ticks, count)[k].stamp
    decreases |ticks|
  {
    var shots := Shots(ticks, count);
    if IsCapture(ticks[0]) && k == 0 {
      assert IsCapture(ticks[0]) && ticks[0].frame == shots[0].frame;
    } else {
      var count' := if IsCapture(ticks[0]) then count + 1 else count;
      var k' := if IsCapture(ticks[0]) then k - 1 else k;
      assert Shots(ticks[1..], count')[k'] == shots[k];
      ShotsFromSpacePresses(ticks[1..], count', k');
      var i :| 0 <= i < |ticks[1..]| && IsCapture(ticks[1..][i]) &&
               ticks[1..][i].frame == shots[k].frame && ticks[1..][i].stamp == shots[k].stamp;
      assert ticks[i + 1] == ticks[1..][i];
    }
  }

  /** The file name new_user gives photo `index`: "<id>_<index>_<stamp>.jpg". */
  function FileName(id: string, index: nat, stamp: string): (n: string)
    ensures |n| >= |id| + 7
    ensures n[..|id| + 1] == id + "_"
    ensures n[|n| - 4..] == ".jpg"
  {
    id + "_" + Decimal.NatToString(index) + "_" + stamp + ".jpg"
  }

  /** Photos with different indices go to different files, whatever their
      timestamps: the index numeral is followed by the first '_' after the id. */
  lemma FileNamesDistinct(id: string, i: nat, j: nat, s1: string, s2: string)
    requires i != j
    ensures FileName(id, i, s1) != FileName(id, j, s2)
  {
    var a, b := Decimal.NatToString(i), Decimal.NatToString(j);
    var x, y := FileName(id, i, s1), FileName(id, j, s2);
    var p := |id| + 1;
    Decimal.NatToStringInjective(i, j);
    if |a| == |b| {
      var k :| 0 <= k < |a| && a[k] != b[k];
      assert x[p + k] == a[k];
      assert y[p + k] == b[k];
    } else if |a| < |b| {
      assert x[p + |a|] == '_';
      assert y[p + |a|] == b[|a|];
      assert Decimal.IsDigit(b[|a|]);
      assert x[p + |a|] != y[p + |a|];
    } else {
      assert y[p + |b|] == '_';
      assert x[p + |b|] == a[|b|];
      assert Decimal.IsDigit(a[|b|]);
      assert x[p + |b|] != y[p + |b|];
    }
  }

  /** What a photo's file holds: the ciphertext of its JPEG bytes. */
  function Stored(caps: Capabilities, key: Key, s: Shot): Bytes
  {
    caps.encrypt(key, caps.imencode(s.frame))
  }

  /** The folder after the photos in `shots` are written and encrypted, in order. */
  function Saved(caps: Capabilities, key: Key, id: string, folder: Folder, shots: seq<Shot>): (r: Folder)
    ensures folder.Keys <= r.Keys
    decreases |shots|
  {
    if shots == [] then folder
    else
      var s := shots[|shots| - 1];
      Saved(caps, key, id, folder, shots[..|shots| - 1])[FileName(id, s.index, s.stamp) := Stored(caps, key, s)]
  }

  /** Writing one more photo extends the folder by that photo's file. */
  lemma SavedAppend(caps: Capabilities, key: Key, id: string, folder: Folder, shots: seq<Shot>, s: Shot)
    ensures Saved(caps, key, id, folder, shots + [s]) ==
            Saved(caps, key, id, folder, shots)[FileName(id, s.index, s.stamp) := Stored(caps, key, s)]
  {
  }

  /** After a session every photo is on disk under its own name, holding its
      ciphertext. */
  lemma {:induction false} SavedHoldsEveryShot(caps: Capabilities, key: Key, id: string, folder: Folder,
                                               shots: seq<Shot>, k: nat)
    requires forall a, b :: 0 <= a < b < |shots| ==> shots[a].index != shots[b].index
    requires k < |shots|
    ensures FileName(id, shots[k].index, shots[k].stamp) in Saved(caps, key, id, folder, shots)
    ensures Saved(caps, key, id, folder, shots)[FileName(id, shots[k].index, shots[k].stamp)] == Stored(caps, key, shots[k])
    decreases |shots|
  {
    var last := shots[|shots| - 1];
    if k < |shots| - 1 {
      var front := shots[..|shots| - 1];
      assert front[k] == shots[k];
      SavedHoldsEveryShot(caps, key, id, folder, front, k);
      FileNamesDistinct(id, shots[k].index, last.index, shots[k].stamp, last.stamp);
    }
  }

  /** Nothing is written in the clear: each file of the folder afterwards
      is either untouched or the ciphertext of one of the session's photos. */
  lemma {:induction false} SavedOnlyCiphertext(caps: Capabilities, key: Key, id: string, folder: Folder,
                                               shots: seq<Shot>, n: string)
    requires n in Saved(caps, key, id, folder, shots)
    ensures (n in folder && Saved(caps, key, id, folder, shots)[n] == folder[n]) ||
            exists k :: 0 <= k < |shots| && Saved(caps, key, id, folder, shots)[n] == Stored(caps, key, shots[k])
    decreases |shots|
  {
    if shots != [] {
      var last := shots[|shots| - 1];
      var front := shots[..|shots| - 1];
      if n != FileName(id, last.index, last.stamp) {
        SavedOnlyCiphertext(caps, key, id, folder, front, n);
        if !(n in folder && Saved(caps, key, id, folder, front)[n] == folder[n]) {
          var k :| 0 <= k < |front| && Saved(caps, key, id, folder, front)[n] == Stored(caps, key, front[k]);
          assert front[k] == shots[k];
        }
      }
    }
  }
}
