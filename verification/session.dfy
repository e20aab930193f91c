/**
 The scan session of the QR scanner component: a `scanning` flag and the last
 decoded `result`, driven by the start button, the camera acquisition in the
 `try` block of `startScan`, the decode callback and `stopScan`. Each event is
 one atomic transition; the decoder and the camera are reduced to the events
 they cause.
 */
module Session {
  import opened Options
  import opened Camera

  datatype State = State(scanning: bool, result: string)

  /** The component's state at mount: not scanning, empty result. */
  const Initial: State := State(false, "")

  datatype Event =
    | Start                   // `startScan` up to the first `await`
    | AcquireFailed           // the `catch` block of `startScan`
    | DecodeHit(text: string) // decode callback with a result object
    | DecodeMiss              // decode callback with a falsy result
    | Stop                    // `stopScan`

  /** `stopScan`: the flag is lowered; the result is left alone. */
  function StopScan(s: State): (r: State)
    ensures !r.scanning
    ensures r.result == s.result
  {
    s.(scanning := false)
  }

  /** The decode callback: a result writes its text and stops the scan; a falsy one is ignored. */
  function OnDecode(s: State, res: Option<string>): (r: State)
    ensures res.Some? ==> r == State(false, res.value)
    ensures res.None? ==> r == s
  {
    match res
    case Some(text) => StopScan(s.(result := text))
    case None => s
  }

  /**
   One event. Only a start raises the flag (a miss keeps it); the result is
   kept, cleared by a start from idle, or overwritten by a hit.
   */
  function Step(s: State, e: Event): (r: State)
    ensures r.scanning <==> e.Start? || (e.DecodeMiss? && s.scanning)
    ensures r.result == s.result || (e.Start? && r.result == "") || (e.DecodeHit? && r.result == e.text)
    ensures e.Start? && s.scanning ==> r == s
  {
    match e
    case Start => if s.scanning then s else State(true, "")
    case AcquireFailed => s.(scanning := false)
    case DecodeHit(text) => OnDecode(s, Some(text))
    case DecodeMiss => OnDecode(s, None)
    case Stop => StopScan(s)
  }

  /** The state after the events, applied in order. */
  function Run(s: State, events: seq<Event>): (r: State)
    ensures r.scanning ==> s.scanning || exists i :: 0 <= i < |events| && events[i] == Start
    decreases |events|
  {
    if |events| == 0 then s
    else
      var r := Run(Step(s, events[0]), events[1..]);
      assert forall i :: 0 <= i < |events[1..]| ==> events[1..][i] == events[i + 1];
      r
  }

  lemma {:induction false} RunAppend(s: State, a: seq<Event>, b: seq<Event>)
    ensures Run(s, a + b) == Run(Run(s, a), b)
    decreases |a|
  {
    if |a| == 0 {
      assert a + b == b;
    } else {
      assert (a + b)[1..] == a[1..] + b;
      RunAppend(Step(s, a[0]), a[1..], b);
    }
  }

  // ---------------------------------------------------------------------
  // Single transitions

  /** Pressing start while scanning does nothing. */
  lemma StartWhileScanningIsNoOp(s: State)
    requires s.scanning
    ensures Step(s, Start) == s
  {
  }

  /** Pressing start while idle clears the result and raises the flag, whatever the old result. */
  lemma StartFromIdleClears(s: State)
    requires !s.scanning
    ensures Step(s, Start) == State(true, "")
  {
  }

  /** A decode hit stores its text and ends the scan; a miss changes nothing. */
  lemma DecodeEffects(s: State, text: string)
    ensures Step(s, DecodeHit(text)) == State(false, text)
    ensures Step(s, DecodeMiss) == s
  {
  }

  /** Stop always leaves the session idle, keeps the result, and a second stop changes nothing. */
  lemma StopIdempotent(s: State)
    ensures !Step(s, Stop).scanning
    ensures Step(s, Stop).result == s.result
    ensures Step(Step(s, Stop), Stop) == Step(s, Stop)
  {
  }

  /** A failed acquisition after a start from idle leaves the session idle with the result the start cleared. */
  lemma StartThenFailIsIdleAndEmpty(s: State)
    requires !s.scanning
    ensures Run(s, [Start, AcquireFailed]) == State(false, "")
  {
  }

  // ---------------------------------------------------------------------
  // Event sequences

  /** Any number of start presses while scanning leave the state unchanged. */
  lemma {:induction false} RepeatedStartsAreNoOps(s: State, events: seq<Event>)
    requires s.scanning
    requires forall i :: 0 <= i < |events| ==> events[i] == Start
    ensures Run(s, events) == s
    decreases |events|
  {
    if |events| > 0 {
      RepeatedStartsAreNoOps(Step(s, events[0]), events[1..]);
    }
  }

  /** Events that leave the result alone and cannot raise the flag. */
  predicate Passive(e: Event) {
    e.Stop? || e.DecodeMiss? || e.AcquireFailed?
  }

  /**
   The scan stops on the first match: after a hit with `text`, stops, misses
   and failures keep the session idle showing `text`.
   */
  lemma {:induction false} HitIsFinal(s: State, text: string, rest: seq<Event>)
    requires forall i :: 0 <= i < |rest| ==> Passive(rest[i])
    ensures Run(s, [DecodeHit(text)] + rest) == State(false, text)
  {
    assert ([DecodeHit(text)] + rest)[1..] == rest;
    PassiveKeepsIdle(State(false, text), rest);
  }

  lemma {:induction false} PassiveKeepsIdle(s: State, rest: seq<Event>)
    requires !s.scanning
    requires forall i :: 0 <= i < |rest| ==> Passive(rest[i])
    ensures Run(s, rest) == s
    decreases |rest|
  {
    if |rest| > 0 {
      PassiveKeepsIdle(Step(s, rest[0]), rest[1..]);
    }
  }

  /** The value an event writes into the scanning flag, if it writes one at all. */
  function ScanningWrite(e: Event): (r: Option<bool>)
    ensures r.None? <==> e.DecodeMiss?
  {
    match e
    case Start => Some(true)
    case DecodeMiss => None
    case _ => Some(false)
  }

  /** The flag written by the last event that writes one. */
  function LastScanningWrite(events: seq<Event>): (r: Option<bool>)
    ensures r.None? <==> forall i :: 0 <= i < |events| ==> events[i].DecodeMiss?
    decreases |events|
  {
    if |events| == 0 then None
    else match ScanningWrite(events[|events| - 1])
      case Some(b) => Some(b)
      case None => LastScanningWrite(events[..|events| - 1])
  }

  /** The session is scanning exactly when the last flag-writing event was a start (or, if none, it was scanning before). */
  lemma {:induction false} ScanningIsLastWrite(s: State, events: seq<Event>)
    ensures Run(s, events).scanning == LastScanningWrite(events).GetOr(s.scanning)
    decreases |events|
  {
    if |events| > 0 {
      var n := |events| - 1;
      var init := events[..n];
      assert events == init + [events[n]];
      RunAppend(s, init, [events[n]]);
      ScanningIsLastWrite(s, init);
    }
  }

  /**
   The result only ever holds the value it started with, the empty string a
   start writes, or the text of some decode hit among the events.
   */
  lemma {:induction false} ResultProvenance(s: State, events: seq<Event>)
    ensures var r := Run(s, events).result;
      r == s.result || r == "" || exists i :: 0 <= i < |events| && events[i] == DecodeHit(r)
    decreases |events|
  {
    if |events| > 0 {
      var t := Step(s, events[0]);
      ResultProvenance(t, events[1..]);
      var r := Run(s, events).result;
      if exists i :: 0 <= i < |events[1..]| && events[1..][i] == DecodeHit(r) {
        var i :| 0 <= i < |events[1..]| && events[1..][i] == DecodeHit(r);
        assert events[i + 1] == DecodeHit(r);
      } else if r == t.result && t.result != s.result && t.result != "" {
        assert events[0] == DecodeHit(r);
      }
    }
  }

  // ---------------------------------------------------------------------
  // A whole start attempt

  /** The outcome of one call of `startScan`: the state it leaves and the camera whose id it asked to decode from. */
  datatype Attempt = Attempt(state: State, camera: Option<Device>)

  /**
   One call of `startScan`. `listed` is what the device enumeration resolved
   to (`None` when it rejected); `streamOk` says whether starting the decoder
   on the chosen camera succeeded. An empty enumeration leaves no camera, the
   id lookup throws, and the `catch` block lowers the flag.
   */
  function StartScan(s: State, listed: Option<seq<Device>>, streamOk: bool): (a: Attempt)
    ensures s.scanning ==> a == Attempt(s, None)
    ensures !s.scanning ==> a.state.result == ""
    ensures !s.scanning && listed.Some? ==> a.camera == SelectCamera(listed.value)
    ensures a.camera.Some? ==> listed.Some? && a.camera.value in listed.value
    ensures !s.scanning ==> (a.state.scanning <==> a.camera.Some? && streamOk)
  {
    if s.scanning then Attempt(s, None)
    else
      var cleared := Step(s, Start);
      match listed
      case None => Attempt(Step(cleared, AcquireFailed), None)
      case Some(devices) =>
        match SelectCamera(devices)
        case None => Attempt(Step(cleared, AcquireFailed), None)
        case Some(d) => Attempt(if streamOk then cleared else Step(cleared, AcquireFailed), Some(d))
  }

  /** A start attempt is a `Start` event, followed by `AcquireFailed` exactly when no live stream results. */
  lemma StartScanAsEvents(s: State, listed: Option<seq<Device>>, streamOk: bool)
    ensures var a := StartScan(s, listed, streamOk);
      a.state == (if s.scanning || (a.camera.Some? && streamOk) then Run(s, [Start])
                  else Run(s, [Start, AcquireFailed]))
  {
  }

  /** From the mount state, a start whose camera acquisition fails returns to the mount state. */
  lemma FailedStartFromMountIsMount()
    ensures Run(Initial, [Start, AcquireFailed]) == Initial
  {
  }

  /** With an empty device list no camera is requested and the session ends idle with an empty result. */
  lemma EmptyDeviceListFails(s: State, streamOk: bool)
    requires !s.scanning
    ensures StartScan(s, Some([]), streamOk) == Attempt(State(false, ""), None)
  {
  }
}
