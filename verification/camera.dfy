/**
 Camera selection in `startScan`: among the enumerated video inputs, take the
 first whose lower-cased label contains "back", else the first input, else
 nothing (an empty enumeration).
 */
module Camera {
  import opened Options
  import Ascii

  /** One entry of the platform's video-input enumeration. */
  datatype Device = Device(deviceId: string, deviceLabel: string)

  const BackKeyword: string := "back"

  /** The label test `d.deviceLabel.toLowerCase().includes("back")`. */
  function IsBackFacing(d: Device): (r: bool)
    ensures r ==> |d.deviceLabel| >= |BackKeyword|
  {
    Ascii.Includes(Ascii.ToLower(d.deviceLabel), BackKeyword)
  }

  /** Index of the device `devices.find(...)` returns: the first back-facing one, if any. */
  function FirstBackFacing(devices: seq<Device>): (r: Option<nat>)
    ensures r.Some? ==> r.value < |devices| && IsBackFacing(devices[r.value])
    ensures r.Some? ==> forall j :: 0 <= j < r.value ==> !IsBackFacing(devices[j])
    ensures r.None? ==> forall j :: 0 <= j < |devices| ==> !IsBackFacing(devices[j])
  {
    if |devices| == 0 then None
    else if IsBackFacing(devices[0]) then Some(0)
    else
      match FirstBackFacing(devices[1..])
      case None => None
      case Some(i) => Some(i + 1)
  }

  /** `devices.find(...)`: the first back-facing device, or `undefined`. */
  function Find(devices: seq<Device>): (r: Option<Device>)
    ensures r.Some? <==> exists j :: 0 <= j < |devices| && IsBackFacing(devices[j])
    ensures r.Some? ==> r.value in devices && IsBackFacing(r.value)
  {
    match FirstBackFacing(devices)
    case Some(i) => Some(devices[i])
    case None => None
  }

  /** The selected camera `devices.find(...) || devices[0]`: the first back-facing device, else `devices[0]`, else none. */
  function SelectCamera(devices: seq<Device>): (r: Option<Device>)
    ensures r.None? <==> |devices| == 0
    ensures r.Some? ==> r.value in devices
  {
    Find(devices).Or(At(devices, 0))
  }

  /** When device `i` is back-facing and no earlier one is, device `i` is selected. */
  lemma SelectsFirstBackFacing(devices: seq<Device>, i: nat)
    requires i < |devices| && IsBackFacing(devices[i])
    requires forall j :: 0 <= j < i ==> !IsBackFacing(devices[j])
    ensures SelectCamera(devices) == Some(devices[i])
  {
    var r := FirstBackFacing(devices);
    assert r.Some?;
    assert !(r.value < i) && !(i < r.value);
  }

  /** With no back-facing device in a non-empty list, the first device is selected. */
  lemma FallsBackToFirst(devices: seq<Device>)
    requires |devices| > 0
    requires forall j :: 0 <= j < |devices| ==> !IsBackFacing(devices[j])
    ensures SelectCamera(devices) == Some(devices[0])
  {
  }

  /** The selected device passes the label test exactly when some enumerated device does. */
  lemma SelectedIsBackFacingIff(devices: seq<Device>)
    ensures (SelectCamera(devices).Some? && IsBackFacing(SelectCamera(devices).value))
            <==> exists j :: 0 <= j < |devices| && IsBackFacing(devices[j])
  {
    match FirstBackFacing(devices)
    case Some(i) =>
    case None =>
  }

  /** Four consecutive characters of `s` from offset `i` read "back" in some mix of ASCII case. */
  ghost predicate SpellsBackAt(s: string, i: int) {
    0 <= i && i + 4 <= |s|
    && s[i] in "bB" && s[i + 1] in "aA" && s[i + 2] in "cC" && s[i + 3] in "kK"
  }

  /** The label test, spelled out: "back" appears in the label in any mix of ASCII case. */
  lemma IsBackFacingIff(d: Device)
    ensures IsBackFacing(d) <==> exists i :: SpellsBackAt(d.deviceLabel, i)
  {
    var s := d.deviceLabel;
    Ascii.IncludesLoweredIff(s, BackKeyword);
    if IsBackFacing(d) {
      var i :| Ascii.OccursLoweredAt(s, BackKeyword, i);
      LoweredBackAt(s, i);
      assert SpellsBackAt(s, i);
    }
    if exists i :: SpellsBackAt(s, i) {
      var i :| SpellsBackAt(s, i);
      LoweredBackAt(s, i);
      assert Ascii.OccursLoweredAt(s, BackKeyword, i);
    }
  }

  lemma LoweredBackAt(s: string, i: int)
    requires 0 <= i && i + 4 <= |s|
    ensures Ascii.OccursLoweredAt(s, BackKeyword, i) <==> SpellsBackAt(s, i)
  {
    LowerCharIs(s[i], 'b', 'B');
    LowerCharIs(s[i + 1], 'a', 'A');
    LowerCharIs(s[i + 2], 'c', 'C');
    LowerCharIs(s[i + 3], 'k', 'K');
    if Ascii.OccursLoweredAt(s, BackKeyword, i) {
      assert Ascii.LowerChar(s[i + 0]) == BackKeyword[0];
      assert Ascii.LowerChar(s[i + 1]) == BackKeyword[1];
      assert Ascii.LowerChar(s[i + 2]) == BackKeyword[2];
      assert Ascii.LowerChar(s[i + 3]) == BackKeyword[3];
    } else {
      var k :| 0 <= k < 4 && Ascii.LowerChar(s[i + k]) != BackKeyword[k];
      assert k == 0 || k == 1 || k == 2 || k == 3;
    }
  }

  /** A lower-case ASCII letter is reached by lower-casing exactly itself and its capital. */
  lemma LowerCharIs(c: char, lower: char, upper: char)
    requires 'a' <= lower <= 'z' && upper as int == lower as int - 32
    ensures Ascii.LowerChar(c) == lower <==> c == lower || c == upper
  {
  }
}
