# QR / barcode scanner session — a Dafny model

The repository is a React component (`QRScanner`) that wraps the ZXing browser
reader. When the user presses start, it lists the video inputs, picks a
camera, and asks the reader to decode from that camera. It shows the first
decoded text and then stops. This project models the two pieces of logic in
that component:

- **Camera selection** (`Camera`). Each device is a `(deviceId, deviceLabel)`
  pair. The component picks the first device whose lower-cased label contains
  `"back"`. If there is none it picks `devices[0]`. If the list is empty there
  is no device. The two string operations this uses are in `Ascii`:
  lower-casing (ASCII letters only) and `includes` as a left-to-right
  substring search.
- **Scan session** (`Session`). The state is `State(scanning, result)`.
  `Start`, `AcquireFailed`, `DecodeHit(text)`, `DecodeMiss` and `Stop` are
  atomic transitions. `Run` applies a sequence of them in order. `StartScan`
  is one whole call of `startScan`: the guard, the clearing, device
  enumeration (a parameter), camera selection, stream start (a parameter) and
  the `catch` block.

The component is minimal:

- The session has only a boolean flag. There are no Starting or Stopping
  states.
- No duplicate filter and no audio tone exist. The scan stops after the first
  hit.
- The decode callback does not check `scanning`. A hit delivered after a stop
  still writes its text and calls `stopScan` again (`Session.DecodeEffects`
  holds for every state). Only the reader's `reset()` stops callbacks, and
  that is library behaviour.
- `if (res)` tests a result object, which is truthy even when its text is
  empty. So `DecodeHit("")` still writes `""` and stops the scan.

## Model

| member | source | states |
|---|---|---|
| Ascii.LowerChar | src/App.js:18 | lower-casing one character leaves no upper-case ASCII letter and changes only upper-case ASCII letters |
| Ascii.ToLower | src/App.js:18 | lower-casing keeps the length, maps each character through ASCII lower-casing, and leaves no upper-case ASCII letter |
| Ascii.ToLowerIdempotent | src/App.js:18 | lower-casing an already lower-cased label changes nothing |
| Ascii.Includes | src/App.js:18 | `includes` holds whenever the keyword is a prefix, and only when the keyword is no longer than the string |
| Ascii.IncludesIffOccurs | src/App.js:18 | `includes` holds exactly when the keyword occurs at some offset of the string (both directions; the empty keyword occurs everywhere) |
| Ascii.IncludesLoweredIff | src/App.js:18 | searching the lower-cased label is the same as searching the original label with ASCII case ignored |
| Camera.IsBackFacing | src/App.js:18 | a label that passes the test is at least as long as the keyword "back" |
| Camera.IsBackFacingIff | src/App.js:18 | a device passes the label test exactly when four consecutive label characters spell "back" in any mix of case |
| Camera.FirstBackFacing | src/App.js:17-18 | `find` returns an index of a back-facing device with no back-facing device before it, or nothing when no device is back-facing |
| Camera.Find | src/App.js:18 | `find` returns a device exactly when some listed device is back-facing, and that device is in the list and back-facing |
| Options.Or | src/App.js:18-19 | the or-operator applied to an object or `undefined` yields `x` when it is an object, otherwise `y` |
| Options.At | src/App.js:19 | `devices[0]` is an element exactly when the index is inside the list, and it is then that element |
| Camera.SelectCamera | src/App.js:17-19 | selection returns no device exactly when the list is empty; any device it returns is in the list |
| Camera.SelectsFirstBackFacing | src/App.js:17-18 | if device i is back-facing and no earlier one is, device i is selected |
| Camera.FallsBackToFirst | src/App.js:19 | in a non-empty list with no back-facing device, `devices[0]` is selected |
| Camera.SelectedIsBackFacingIff | src/App.js:17-19 | the selected device passes the label test exactly when some listed device does |
| Session.Step | src/App.js:10-40 | after one event the flag is raised exactly for a start, or a miss while scanning; the result is kept, cleared by a start, or set to a hit's text; a start while scanning changes nothing |
| Session.OnDecode | src/App.js:24-28 | a callback with a result leaves the session idle holding its text; a falsy one changes nothing |
| Session.StopScan | src/App.js:37-40 | stop lowers the flag and keeps the result |
| Session.Run | src/App.js:10-40 | after any event sequence the session can be scanning only if it was scanning already or some event was a start |
| Session.LastScanningWrite | src/App.js:10-40 | no event writes the flag exactly when every event is a miss |
| Session.StartWhileScanningIsNoOp | src/App.js:11 | start while scanning leaves the state unchanged |
| Session.RepeatedStartsAreNoOps | src/App.js:11 | any number of start presses while scanning leave the state unchanged |
| Session.StartFromIdleClears | src/App.js:11-13 | start from idle clears the result and raises the flag, whatever the old result was |
| Session.DecodeEffects | src/App.js:24-28 | in every state a hit stores its text and leaves the session idle; a miss changes nothing |
| Session.StopIdempotent | src/App.js:37-40 | stop lowers the flag, keeps the result, and a second stop changes nothing |
| Session.StartThenFailIsIdleAndEmpty | src/App.js:10-34 | a start from idle followed by an acquisition failure ends idle with the empty result |
| Session.HitIsFinal | src/App.js:25-28 | after a hit, any stops, misses and failures leave the session idle showing that hit's text |
| Session.ScanningIsLastWrite | src/App.js:10-40 | after any event sequence the flag is the value written by the last flag-writing event (start raises it; failure, hit and stop lower it), or its old value if no event writes it |
| Session.ResultProvenance | src/App.js:10-40 | after any event sequence the result is its old value, the empty string, or the text of some hit in the sequence |
| Session.StartScan | src/App.js:10-34 | a start while scanning requests no camera and changes nothing; from idle it clears the result, requests the selected camera, and ends scanning exactly when a camera was found and its stream started |
| Session.StartScanAsEvents | src/App.js:10-34 | a start call equals a `Start` event, followed by `AcquireFailed` exactly when no live stream results |
| Session.FailedStartFromMountIsMount | src/App.js:6-34 | from the mount state (idle, empty result), a start whose acquisition fails returns to the mount state |
| Session.EmptyDeviceListFails | src/App.js:16-34 | with an empty device list no camera is requested and the session ends idle with the empty result |

## Left out

- JSX rendering and styling (src/App.js:42-72): presentation only. This includes the start/stop button swap at lines 60-64.
- ZXing internals (`listVideoInputDevices`, `decodeFromVideoDevice`, `reset`): these are foreign library calls. Enumeration becomes the `listed` parameter of `Session.StartScan`. Stream start becomes its `streamOk` parameter. The decoder's callbacks become the `DecodeHit`/`DecodeMiss` events. What `reset()` does to pending callbacks is not modelled.
- Async interleavings and React `setState` batching: each event is one atomic transition. The guard at line 11 reads the render-time flag, so a rapid double press is a framework concern and is not modelled.
- Ascii.ToLower: covers ASCII letters only, not full Unicode `toLowerCase`. Non-ASCII letters are left unchanged, so this is an approximation. It can change which camera is picked. JavaScript lower-cases U+212A KELVIN SIGN to `k`, so a label "BAC\u212A" is back-facing in the component but not in the model.
- Session.StopScan: assumes `reader.reset()` returns normally. If it threw, `setScanning(false)` would not run and the flag would stay raised after a stop. After a hit, the text would still be written but the flag would stay raised. `Session.StopIdempotent`, `Session.DecodeEffects` and `Session.HitIsFinal` rely on this assumption.
- `console.error` logging in the catch block: output with no effect on state.
