/**
 * Input samples of a Halo route and their validation
 * (crates/sim-lib-stream-halo/src/provider.rs:61-133, 383-406).
 */
module HaloSamples {
  import opened Wrappers
  import opened Sequences
  import opened DeviceEffects

  datatype SampleFault = NotThreeDof | WrongTapDevice | BadCameraFrame | SecondCameraPull | MovedBackwards

  const HALO_DEVICE := Symbol("device", "halo")

  /**
   * One normalized sample.  Only the fields validation reads are separate; `body`
   * stands for the rest of the record.
   */
  datatype HaloSample =
    | Motion(sequence: nat, dof: nat, hasPosition: bool, body: string)
    | Tap(sequence: nat, device: Symbol, body: string)
    | Button(sequence: nat, body: string)
    | Mic(sequence: nat, body: string)
    | Camera(sequence: nat, device: Symbol, widthPx: nat, heightPx: nat, stereo: bool, body: string)
  {
    /** The kind a poll asks for to get this sample. */
    function Kind(): string {
      match this
      case Motion(_, _, _, _) => "xr/pose"
      case Tap(_, _, _) => "xr/tap"
      case Button(_, _) => "xr/button"
      case Mic(_, _) => "xr/mic-chunk"
      case Camera(_, _, _, _, _, _) => CAMERA_KIND
    }

    function Validate(): Option<SampleFault> {
      match this
      case Motion(_, dof, hasPosition, _) =>
        if dof != 3 || hasPosition then Some(NotThreeDof) else None
      case Tap(_, device, _) =>
        if device != HALO_DEVICE then Some(WrongTapDevice) else None
      case Camera(_, device, width, height, stereo, _) =>
        if device != HALO_DEVICE || width != 640 || height != 480 || stereo then Some(BadCameraFrame) else None
      case _ => None
    }
  }

  /** 3-DoF motion hints, taps and mono 640x480 camera references of this device; anything else is free. */
  ghost predicate WellFormed(s: HaloSample) {
    && (s.Motion? ==> s.dof == 3 && !s.hasPosition)
    && (s.Tap? ==> s.device == HALO_DEVICE)
    && (s.Camera? ==> s.device == HALO_DEVICE && s.widthPx == 640 && s.heightPx == 480 && !s.stereo)
  }

  const CAMERA_KIND := "xr/camera-frame"

  /** Each poll kind names one sort of sample. */
  lemma KindNamesSort(s: HaloSample)
    ensures s.Kind() == "xr/pose" <==> s.Motion?
    ensures s.Kind() == "xr/tap" <==> s.Tap?
    ensures s.Kind() == "xr/button" <==> s.Button?
    ensures s.Kind() == "xr/mic-chunk" <==> s.Mic?
    ensures s.Kind() == "xr/camera-frame" <==> s.Camera?
  {
    var names := ["xr/pose", "xr/tap", "xr/button", "xr/mic-chunk", "xr/camera-frame"];
    assert names[0][3] == 'p' && names[1][3] == 't' && names[2][3] == 'b' && names[3][3] == 'm' && names[4][3] == 'c';
  }

  lemma CameraKind(s: HaloSample)
    ensures s.Kind() == CAMERA_KIND <==> s.Camera?
  {
    assert "xr/pose"[3] != CAMERA_KIND[3] && "xr/tap"[3] != CAMERA_KIND[3];
    assert "xr/button"[3] != CAMERA_KIND[3] && "xr/mic-chunk"[3] != CAMERA_KIND[3];
  }

  ghost predicate SequencesOrdered(samples: seq<HaloSample>) {
    forall i, j :: 0 <= i < j < |samples| && samples[i].Kind() == samples[j].Kind()
                   ==> samples[i].sequence <= samples[j].sequence
  }

  /** Are the samples individually well formed, with one camera pull at most, and ordered within each kind? */
  ghost predicate Acceptable(samples: seq<HaloSample>) {
    && (forall i :: 0 <= i < |samples| ==> WellFormed(samples[i]))
    && (forall i, j :: 0 <= i < j < |samples| ==> !(samples[i].Camera? && samples[j].Camera?))
    && SequencesOrdered(samples)
  }

  /** Is there a camera sample among the first `n`? */
  ghost predicate CameraBefore(samples: seq<HaloSample>, n: nat)
    requires n <= |samples|
  {
    exists j :: 0 <= j < n && samples[j].Camera?
  }

  /** Why sample `i` cannot follow the acceptable samples before it. */
  ghost function FaultAt(samples: seq<HaloSample>, i: nat): SampleFault
    requires i < |samples|
  {
    if !WellFormed(samples[i]) then
      (match samples[i]
       case Motion(_, _, _, _) => NotThreeDof
       case Tap(_, _, _) => WrongTapDevice
       case _ => BadCameraFrame)
    else if samples[i].Camera? && CameraBefore(samples, i) then SecondCameraPull
    else MovedBackwards
  }

  ghost predicate IsFirstFault(samples: seq<HaloSample>, i: nat, fault: SampleFault) {
    && i < |samples|
    && Acceptable(samples[..i]) && !Acceptable(samples[..i + 1])
    && fault == FaultAt(samples, i)
  }

  ghost function KindOf(): HaloSample -> string {
    (s: HaloSample) => s.Kind()
  }

  /** Does `lastSeq` hold the greatest sequence number of each kind in the first `n` samples? */
  ghost predicate TracksLast(
    kindOf: HaloSample -> string, samples: seq<HaloSample>, n: nat, lastSeq: map<string, nat>)
  {
    && n <= |samples|
    && (forall i :: 0 <= i < n ==>
          kindOf(samples[i]) in lastSeq && samples[i].sequence <= lastSeq[kindOf(samples[i])])
    && (forall k :: k in lastSeq ==> exists i :: 0 <= i < n && kindOf(samples[i]) == k
                                                && samples[i].sequence == lastSeq[k])
  }

  lemma TracksNext(
    kindOf: HaloSample -> string, samples: seq<HaloSample>, n: nat, lastSeq: map<string, nat>)
    requires TracksLast(kindOf, samples, n, lastSeq) && n < |samples|
    requires kindOf(samples[n]) in lastSeq ==> lastSeq[kindOf(samples[n])] <= samples[n].sequence
    ensures TracksLast(kindOf, samples, n + 1, lastSeq[kindOf(samples[n]) := samples[n].sequence])
  {
    var kind := kindOf(samples[n]);
    var next := lastSeq[kind := samples[n].sequence];
    forall k | k in next
      ensures exists i :: 0 <= i < n + 1 && kindOf(samples[i]) == k && samples[i].sequence == next[k]
    {
      if k == kind {
        assert samples[n].sequence == next[k];
      } else {
        var i :| 0 <= i < n && kindOf(samples[i]) == k && samples[i].sequence == lastSeq[k];
      }
    }
  }

  lemma AcceptNext(samples: seq<HaloSample>, n: nat, lastSeq: map<string, nat>)
    requires TracksLast(KindOf(), samples, n, lastSeq)
    requires n < |samples| && Acceptable(samples[..n]) && samples[n].Validate().None?
    requires samples[n].Camera? ==> !CameraBefore(samples, n)
    requires KindOf()(samples[n]) in lastSeq ==> lastSeq[KindOf()(samples[n])] <= samples[n].sequence
    ensures Acceptable(samples[..n + 1])
    ensures CameraBefore(samples, n + 1) <==> CameraBefore(samples, n) || samples[n].Camera?
  {
    var kind := KindOf()(samples[n]);
    forall i | 0 <= i < n && KindOf()(samples[i]) == kind
      ensures samples[i].sequence <= samples[n].sequence
    {
      assert samples[i].sequence <= lastSeq[kind];
    }
    AppendAcceptable(KindOf(), samples[..n], samples[n]);
    assert samples[..n + 1] == samples[..n] + [samples[n]];
  }

  lemma AppendAcceptable(kindOf: HaloSample -> string, samples: seq<HaloSample>, last: HaloSample)
    requires kindOf == KindOf() && Acceptable(samples) && WellFormed(last)
    requires last.Camera? ==> !CameraBefore(samples, |samples|)
    requires forall i :: 0 <= i < |samples| && kindOf(samples[i]) == kindOf(last)
                         ==> samples[i].sequence <= last.sequence
    ensures Acceptable(samples + [last])
  {
    assert forall s: HaloSample :: kindOf(s) == s.Kind();
  }

  lemma RefuseAt(samples: seq<HaloSample>, n: nat, fault: SampleFault)
    requires n < |samples| && Acceptable(samples[..n]) && !Acceptable(samples[..n + 1])
    requires fault == FaultAt(samples, n)
    ensures IsFirstFault(samples, n, fault) && !Acceptable(samples)
  {
    if Acceptable(samples) {
      var upto := samples[..n + 1];
      assert forall i :: 0 <= i < |upto| ==> upto[i] == samples[i];
      assert Acceptable(upto);
    }
  }

  lemma RefuseInvalid(samples: seq<HaloSample>, n: nat)
    requires n < |samples| && Acceptable(samples[..n]) && samples[n].Validate().Some?
    ensures IsFirstFault(samples, n, samples[n].Validate().value) && !Acceptable(samples)
  {
    assert !WellFormed(samples[..n + 1][n]);
    RefuseAt(samples, n, samples[n].Validate().value);
  }

  lemma RefuseCamera(samples: seq<HaloSample>, n: nat)
    requires n < |samples| && Acceptable(samples[..n]) && samples[n].Validate().None?
    requires CameraBefore(samples, n) && samples[n].Camera?
    ensures IsFirstFault(samples, n, SecondCameraPull) && !Acceptable(samples)
  {
    var j :| 0 <= j < n && samples[j].Camera?;
    assert samples[..n + 1][j].Camera? && samples[..n + 1][n].Camera?;
    RefuseAt(samples, n, SecondCameraPull);
  }

  lemma RefuseBackwards(samples: seq<HaloSample>, n: nat, lastSeq: map<string, nat>)
    requires TracksLast(KindOf(), samples, n, lastSeq)
    requires n < |samples| && Acceptable(samples[..n]) && samples[n].Validate().None?
    requires samples[n].Camera? ==> !CameraBefore(samples, n)
    requires samples[n].Kind() in lastSeq && samples[n].sequence < lastSeq[samples[n].Kind()]
    ensures IsFirstFault(samples, n, MovedBackwards) && !Acceptable(samples)
  {
    var kind := samples[n].Kind();
    var i :| 0 <= i < n && KindOf()(samples[i]) == kind && samples[i].sequence == lastSeq[kind];
    var upto := samples[..n + 1];
    assert upto[i].Kind() == upto[n].Kind() && upto[n].sequence < upto[i].sequence;
    RefuseAt(samples, n, MovedBackwards);
  }

  /** Refuses invalid samples, a second camera pull, and sequences that move backwards. */
  method ValidateSamples(samples: seq<HaloSample>) returns (fault: Option<SampleFault>)
    ensures fault.None? <==> Acceptable(samples)
    ensures fault.Some? ==> exists i :: IsFirstFault(samples, i, fault.value)
  {
    var lastSeq: map<string, nat> := map[];
    var cameraCount := 0;
    for n := 0 to |samples|
      invariant Acceptable(samples[..n])
      invariant TracksLast(KindOf(), samples, n, lastSeq)
      invariant cameraCount > 0 <==> CameraBefore(samples, n)
    {
      var sample := samples[n];
      var invalid := sample.Validate();
      if invalid.Some? {
        RefuseInvalid(samples, n);
        return invalid;
      }
      if sample.Camera? {
        cameraCount := cameraCount + 1;
        if cameraCount > 1 {
          RefuseCamera(samples, n);
          return Some(SecondCameraPull);
        }
      }
      var kind := sample.Kind();
      if kind in lastSeq && sample.sequence < lastSeq[kind] {
        RefuseBackwards(samples, n, lastSeq);
        return Some(MovedBackwards);
      }
      AcceptNext(samples, n, lastSeq);
      TracksNext(KindOf(), samples, n, lastSeq);
      lastSeq := lastSeq[kind := sample.sequence];
    }
    assert samples[..|samples|] == samples;
    return None;
  }

  // ---------------------------------------------------------------- samples of one kind

  ghost function HasKind(kind: string): HaloSample -> bool {
    (s: HaloSample) => s.Kind() == kind
  }

  ghost function OfKind(samples: seq<HaloSample>, kind: string): seq<HaloSample> {
    Filter(samples, HasKind(kind))
  }

  /** Within one kind of an acceptable list, sequence numbers never decrease. */
  lemma {:induction false} OfKindOrdered(samples: seq<HaloSample>, kind: string)
    requires SequencesOrdered(samples)
    ensures forall i, j :: 0 <= i < j < |OfKind(samples, kind)| ==>
              OfKind(samples, kind)[i].sequence <= OfKind(samples, kind)[j].sequence
  {
    if samples != [] {
      OfKindOrdered(samples[1..], kind);
      var rest := OfKind(samples[1..], kind);
      if samples[0].Kind() == kind {
        FilterMembers(samples[1..], HasKind(kind));
        forall j | 0 <= j < |rest|
          ensures samples[0].sequence <= rest[j].sequence
        {
          assert rest[j] in rest;
          var k :| 0 <= k < |samples[1..]| && samples[1..][k] == rest[j];
          assert samples[k + 1] == rest[j];
        }
      }
    }
  }

  /** An acceptable list holds at most one camera sample. */
  lemma {:induction false} OneCamera(samples: seq<HaloSample>)
    requires forall i, j :: 0 <= i < j < |samples| ==> !(samples[i].Camera? && samples[j].Camera?)
    ensures |OfKind(samples, CAMERA_KIND)| <= 1
  {
    if samples != [] {
      CameraKind(samples[0]);
      if samples[0].Camera? {
        forall i | 0 <= i < |samples[1..]|
          ensures samples[1..][i].Kind() != CAMERA_KIND
        {
          assert !samples[i + 1].Camera?;
          CameraKind(samples[i + 1]);
        }
        FilterNone(samples[1..], HasKind(CAMERA_KIND));
      } else {
        OneCamera(samples[1..]);
      }
    }
  }
}
