/** The pure formatter underneath `sway/status.php`: it turns the (already captured)
    outputs of the media, volume, backlight and battery queries and a timestamp into
    the one line the status bar shows. Every external query is a parameter here. */
module SwayStatus {
  import opened Wrappers
  import opened PhpString

  /** What a PHP backtick expression yields: the command's standard output, or
      `null` when it printed nothing. */
  type ShellOutput = Option<string>

  /** `trim(`cmd` ?? '')`: a missing output becomes "", then the result is trimmed. */
  function Capture(out: ShellOutput): (r: string)
    ensures IsTrimmed(r)
    ensures out.None? ==> r == ""
    ensures |r| <= |out.GetOr("")|
    ensures out.Some? ==> r == Trim(out.value)
  {
    Trim(out.GetOr(""))
  }

  /** A sysfs file as `file_exists` and `cat` see it. */
  datatype SysfsFile = Missing | Present(cat: ShellOutput)

  /** `file_exists($f) ? trim(`cat $f` ?? '') : null`. */
  function ReadSysfs(f: SysfsFile): (r: Option<string>)
    ensures r.None? <==> f.Missing?
    ensures r.Some? ==> IsTrimmed(r.value)
    ensures f.Present? ==> r == Some(Capture(f.cat))
  {
    match f
    case Missing => None
    case Present(out) => Some(Capture(out))
  }

  // ---------------------------------------------------------------------------
  // Media
  // ---------------------------------------------------------------------------

  /** What the media-control tool reports when no player is running. */
  const NoPlayers: string := "No players found"

  /** The media field: the literal report when no player is running, otherwise the
      playback state, a space and the track metadata. It is never a string PHP
      treats as false, so the `if` that guards it always keeps it. */
  function MediaSegment(status: string, metadata: string): (r: string)
    ensures Truthy(r)
    ensures status <= r
    ensures r == status <==> status == NoPlayers
    ensures status != NoPlayers ==> r[|status|..] == " " + metadata
  {
    if status == NoPlayers then status
    else
      var r := status + " " + metadata;
      assert r[|status|] == ' ';
      r
  }

  // ---------------------------------------------------------------------------
  // Volume
  // ---------------------------------------------------------------------------

  /** The label the audio-mixer tool puts before the level. */
  const VolumeLabel: string := "Volume: "

  /** `str_replace('Volume: ', '', $volume)`: every occurrence of the label is
      deleted. The text never grows, and it is changed exactly when the label
      occurs in it. */
  function StripVolumeLabel(volume: string): (r: string)
    ensures |r| <= |volume|
    ensures r == volume <==> !Contains(volume, VolumeLabel)
  {
    StrReplaceDeleteChanges(VolumeLabel, volume);
    StrReplace(VolumeLabel, "", volume)
  }

  /** A level reported as the label followed by text free of the label comes
      out as exactly that text. */
  lemma StripLabelledVolume(level: string)
    requires !Contains(level, VolumeLabel)
    ensures StripVolumeLabel(VolumeLabel + level) == level
  {
    StrReplaceLeading(VolumeLabel, "", level);
  }

  // ---------------------------------------------------------------------------
  // Brightness
  // ---------------------------------------------------------------------------

  /** `r` is `100 * current / max` rounded to the nearest whole number, halves up:
      r - 1/2 <= 100 * current / max < r + 1/2. */
  predicate IsRoundedPercent(current: nat, max: nat, r: int) {
    (2 * r - 1) * max <= 200 * current < (2 * r + 1) * max
  }

  /** `round($brightnessCurrent / $brightnessMax * 100)` on exact rationals. */
  function BrightnessPercent(current: nat, max: nat): (r: nat)
    requires max > 0
    ensures IsRoundedPercent(current, max, r)
  {
    var n := 200 * current + max;
    var q := n / (2 * max);
    assert 2 * max * q <= n < 2 * max * q + 2 * max;
    assert (2 * q - 1) * max == 2 * max * q - max;
    assert (2 * q + 1) * max == 2 * max * q + max;
    q
  }

  /** Multiplying by a natural number keeps the order. */
  lemma MulMonotone(a: int, b: int, m: nat)
    requires a <= b
    ensures a * m <= b * m
  {
  }

  /** There is only one rounded percentage of a reading. */
  lemma RoundedPercentUnique(current: nat, max: nat, r1: int, r2: int)
    requires max > 0
    requires IsRoundedPercent(current, max, r1) && IsRoundedPercent(current, max, r2)
    ensures r1 == r2
  {
    if r1 < r2 {
      MulMonotone(2 * r1 + 1, 2 * r2 - 1, max);
    } else if r2 < r1 {
      MulMonotone(2 * r2 + 1, 2 * r1 - 1, max);
    }
  }

  /** A dark backlight shows 0. */
  lemma BrightnessZero(max: nat)
    requires max > 0
    ensures BrightnessPercent(0, max) == 0
  {
  }

  /** A backlight at its maximum shows 100. */
  lemma BrightnessFull(max: nat)
    requires max > 0
    ensures BrightnessPercent(max, max) == 100
  {
    RoundedPercentUnique(max, max, BrightnessPercent(max, max), 100);
  }

  /** A reading no higher than the maximum shows at most 100. */
  lemma BrightnessAtMostHundred(current: nat, max: nat)
    requires 0 < max && current <= max
    ensures BrightnessPercent(current, max) <= 100
  {
    var r := BrightnessPercent(current, max);
    if r > 100 {
      MulMonotone(201, 2 * r - 1, max);
    }
  }

  /** A brighter backlight never shows a smaller percentage. */
  lemma BrightnessMonotone(c1: nat, c2: nat, max: nat)
    requires max > 0 && c1 <= c2
    ensures BrightnessPercent(c1, max) <= BrightnessPercent(c2, max)
  {
    var r1 := BrightnessPercent(c1, max);
    var r2 := BrightnessPercent(c2, max);
    if r1 > r2 {
      MulMonotone(2 * r2 + 1, 2 * r1 - 1, max);
    }
  }

  // ---------------------------------------------------------------------------
  // Battery
  // ---------------------------------------------------------------------------

  /** The three charging states that get a one-character annotation. */
  predicate IsKnownState(status: Option<string>) {
    status == Some("Charging") || status == Some("Discharging") || status == Some("Not charging")
  }

  /** The annotation after the capacity: "+" while charging, "-" while discharging,
      a blank when not charging, and otherwise the raw status in parentheses after a
      space — a missing status file interpolates `null` as "". */
  function StatusAnnotation(status: Option<string>): (r: string)
    ensures |r| == 1 <==> IsKnownState(status)
    ensures !IsKnownState(status) ==> r == " (" + status.GetOr("") + ")"
  {
    match status
    case Some("Charging") => "+"
    case Some("Discharging") => "-"
    case Some("Not charging") => " "
    case _ => " (" + status.GetOr("") + ")"
  }

  /** The one-character annotations of the three known states. */
  lemma KnownStateAnnotations()
    ensures StatusAnnotation(Some("Charging")) == "+"
    ensures StatusAnnotation(Some("Discharging")) == "-"
    ensures StatusAnnotation(Some("Not charging")) == " "
  {
  }

  /** Different status texts give different annotations, so the status can be
      read back from the annotation. */
  lemma StatusAnnotationInjective(s1: string, s2: string)
    requires StatusAnnotation(Some(s1)) == StatusAnnotation(Some(s2))
    ensures s1 == s2
  {
    var a := StatusAnnotation(Some(s1));
    if !IsKnownState(Some(s1)) && !IsKnownState(Some(s2)) {
      assert s1 == a[2..|a| - 1];
      assert s2 == a[2..|a| - 1];
    }
  }

  /** A missing status file reads as " ()", the same as an empty one. */
  lemma MissingStatusAnnotation()
    ensures StatusAnnotation(None) == " ()"
    ensures StatusAnnotation(None) == StatusAnnotation(Some(""))
  {
  }

  /** The battery field: "BAT ", the capacity text (nothing when the capacity file
      is missing), then the status annotation. */
  function BatteryField(capacity: Option<string>, status: Option<string>): (r: string)
    ensures "BAT " <= r
    ensures var c := capacity.GetOr("");
            var a := StatusAnnotation(status);
            |r| == 4 + |c| + |a| && r[4..4 + |c|] == c && r[4 + |c|..] == a
  {
    "BAT " + capacity.GetOr("") + StatusAnnotation(status)
  }

  /** A machine without battery files shows "BAT  ()". */
  lemma NoBatteryField()
    ensures BatteryField(None, None) == "BAT  ()"
  {
  }

  // ---------------------------------------------------------------------------
  // The whole line
  // ---------------------------------------------------------------------------

  /** Everything the script reads from the outside world in one run. */
  datatype Readings = Readings(
    playerStatus: ShellOutput,    // `playerctl status`
    playerMetadata: ShellOutput,  // `playerctl metadata --format ...`
    volume: ShellOutput,          // `wpctl get-volume @DEFAULT_SINK@`
    brightnessCurrent: nat,       // `brightnessctl get`
    brightnessMax: nat,           // `brightnessctl max`
    capacity: SysfsFile,          // /sys/class/power_supply/BAT0/capacity
    status: SysfsFile,            // /sys/class/power_supply/BAT0/status
    time: string)                 // `date('Y-m-d h:i:s a')`

  /** The separator between fields. */
  const Separator: string := " | "

  /** The media field of one run: true in PHP, and opening with the captured
      player status. With no player it is the literal report alone; otherwise
      the status is followed by a space and the captured metadata. */
  function Media(rd: Readings): (r: string)
    ensures Truthy(r)
    ensures Capture(rd.playerStatus) <= r
    ensures Capture(rd.playerStatus) == NoPlayers ==> r == NoPlayers
    ensures Capture(rd.playerStatus) != NoPlayers ==>
              r == Capture(rd.playerStatus) + " " + Capture(rd.playerMetadata)
  {
    MediaSegment(Capture(rd.playerStatus), Capture(rd.playerMetadata))
  }

  /** The volume field: "VOL " and the captured level with the label removed.
      The level is shown as captured exactly when it does not contain the label,
      and a level reported as the label followed by a reading shows that reading. */
  function VolumeField(rd: Readings): (r: string)
    ensures "VOL " <= r && |r| <= 4 + |Capture(rd.volume)|
    ensures r[4..] == StripVolumeLabel(Capture(rd.volume))
    ensures r[4..] == Capture(rd.volume) <==> !Contains(Capture(rd.volume), VolumeLabel)
    ensures var v := Capture(rd.volume);
            VolumeLabel <= v && !Contains(v[|VolumeLabel|..], VolumeLabel) ==>
              r == "VOL " + v[|VolumeLabel|..]
  {
    var v := Capture(rd.volume);
    var r := "VOL " + StripVolumeLabel(v);
    assert r[4..] == StripVolumeLabel(v);
    assert VolumeLabel <= v && !Contains(v[|VolumeLabel|..], VolumeLabel) ==>
             r == "VOL " + v[|VolumeLabel|..] by {
      if VolumeLabel <= v && !Contains(v[|VolumeLabel|..], VolumeLabel) {
        assert v == VolumeLabel + v[|VolumeLabel|..];
        StripLabelledVolume(v[|VolumeLabel|..]);
      }
    }
    r
  }

  /** The brightness field: "SCR " and a non-empty run of digits without a
      leading zero. */
  function BrightnessField(rd: Readings): (r: string)
    requires rd.brightnessMax > 0
    ensures "SCR " <= r && |r| > 4 && AllDigits(r[4..])
    ensures r[4] == '0' ==> r == "SCR 0"
  {
    var digits := NatToString(BrightnessPercent(rd.brightnessCurrent, rd.brightnessMax));
    assert ("SCR " + digits)[4..] == digits;
    "SCR " + digits
  }

  /** The digits of the brightness field read back as the rounded percentage. */
  lemma BrightnessFieldReadsBack(rd: Readings)
    requires rd.brightnessMax > 0
    ensures ParseDecimal(BrightnessField(rd)[4..]) == BrightnessPercent(rd.brightnessCurrent, rd.brightnessMax)
  {
    var p := BrightnessPercent(rd.brightnessCurrent, rd.brightnessMax);
    ParseNatToString(p);
    assert BrightnessField(rd)[4..] == NatToString(p);
  }

  /** The battery field: "BAT ", the capacity read from sysfs ("" when the file is
      missing), then the annotation of the status read from sysfs. */
  function Battery(rd: Readings): (r: string)
    ensures var c := ReadSysfs(rd.capacity).GetOr("");
            "BAT " <= r && |c| + 4 <= |r| && r[4..4 + |c|] == c
            && r[4 + |c|..] == StatusAnnotation(ReadSysfs(rd.status))
    ensures rd.capacity.Missing? ==> r[4..] == StatusAnnotation(ReadSysfs(rd.status))
  {
    BatteryField(ReadSysfs(rd.capacity), ReadSysfs(rd.status))
  }

  /** The output array built from the field texts: the four fixed fields, with the media text
      put in front when PHP considers it true. */
  function Assemble(media: string, volume: string, brightness: string, battery: string, time: string): (fs: seq<string>)
    ensures Truthy(media) ==> fs == [media, volume, brightness, battery, time]
    ensures !Truthy(media) ==> fs == [volume, brightness, battery, time]
  {
    var output := [volume, brightness, battery, time];
    if Truthy(media) then [media] + output else output
  }

  /** The output array of one run. Since the media field is always true in PHP,
      there are always five fields, in the order media, volume, brightness, battery,
      time. */
  function Fields(rd: Readings): (fs: seq<string>)
    requires rd.brightnessMax > 0
    ensures fs == [Media(rd), VolumeField(rd), BrightnessField(rd), Battery(rd), rd.time]
  {
    Assemble(Media(rd), VolumeField(rd), BrightnessField(rd), Battery(rd), rd.time)
  }

  /** The printed line: the fields joined by " | ". It starts with the media segment
      and ends with the timestamp. */
  function StatusLine(rd: Readings): (line: string)
    requires rd.brightnessMax > 0
    ensures Media(rd) <= line
    ensures |rd.time| <= |line| && line[|line| - |rd.time|..] == rd.time
  {
    var fs := Fields(rd);
    assert fs[0] == Media(rd) && fs[|fs| - 1] == rd.time;
    Implode(Separator, fs)
  }

  /** The line spelled out field by field. */
  lemma StatusLineShape(rd: Readings)
    requires rd.brightnessMax > 0
    ensures StatusLine(rd) ==
      Media(rd) + Separator + (VolumeField(rd) + Separator + (BrightnessField(rd) + Separator + (Battery(rd) + Separator + rd.time)))
  {
    ImplodeFive(Separator, Media(rd), VolumeField(rd), BrightnessField(rd), Battery(rd), rd.time);
  }

  /** With no player running the line opens with the literal report as a field
      of its own. */
  lemma NoPlayerLine(rd: Readings)
    requires rd.brightnessMax > 0
    requires Capture(rd.playerStatus) == NoPlayers
    ensures Fields(rd)[0] == NoPlayers
    ensures NoPlayers + Separator <= StatusLine(rd)
  {
  }

  /** With no player running the track metadata plays no part in the line. */
  lemma MetadataIgnoredWithoutPlayer(rd: Readings, metadata: ShellOutput)
    requires rd.brightnessMax > 0
    requires Capture(rd.playerStatus) == NoPlayers
    ensures StatusLine(rd.(playerMetadata := metadata)) == StatusLine(rd)
  {
  }

  /** Trimming a line of output drops its line feed. */
  lemma CaptureLine(text: string)
    requires text != [] && IsTrimmed(text)
    ensures Capture(Some(text + "\n")) == text
  {
  }

  /** An idle laptop without battery files, volume at 0.37, backlight at 120 of 255. */
  predicate IsIdleLaptop(rd: Readings) {
    && Capture(rd.playerStatus) == NoPlayers
    && Capture(rd.volume) == VolumeLabel + "0.37"
    && rd.brightnessCurrent == 120 && rd.brightnessMax == 255
    && rd.capacity == Missing && rd.status == Missing
  }

  lemma IdleLaptopMedia(rd: Readings)
    requires IsIdleLaptop(rd)
    ensures Media(rd) == NoPlayers
  {
  }

  lemma IdleLaptopBattery(rd: Readings)
    requires IsIdleLaptop(rd)
    ensures Battery(rd) == "BAT  ()"
  {
  }

  lemma IdleLaptopVolume(rd: Readings)
    requires IsIdleLaptop(rd)
    ensures VolumeField(rd) == "VOL 0.37"
  {
    StripLabelledVolume("0.37");
  }

  lemma IdleLaptopBrightness(rd: Readings)
    requires IsIdleLaptop(rd)
    ensures BrightnessField(rd) == "SCR 47"
  {
  }

  /** The idle laptop's fields: the player report comes first, and the missing
      battery files leave "BAT  ()". */
  lemma IdleLaptopFields(rd: Readings)
    requires IsIdleLaptop(rd)
    ensures Fields(rd) == [NoPlayers, "VOL 0.37", "SCR 47", "BAT  ()", rd.time]
  {
    IdleLaptopMedia(rd);
    IdleLaptopVolume(rd);
    IdleLaptopBrightness(rd);
    IdleLaptopBattery(rd);
  }

  /** The idle laptop's line. */
  lemma ExampleIdleLaptop(rd: Readings)
    requires IsIdleLaptop(rd)
    ensures StatusLine(rd) == NoPlayers + " | " + ("VOL 0.37" + " | " + ("SCR 47" + " | " + ("BAT  ()" + " | " + rd.time)))
  {
    IdleLaptopFields(rd);
    ImplodeFive(Separator, NoPlayers, "VOL 0.37", "SCR 47", "BAT  ()", rd.time);
  }

  /** Such a laptop's raw tool outputs, each ending in a line feed. */
  lemma IdleLaptopRaw(time: string)
    ensures IsIdleLaptop(Readings(Some(NoPlayers + "\n"), None, Some(VolumeLabel + "0.37" + "\n"),
                                  120, 255, Missing, Missing, time))
  {
    CaptureLine(NoPlayers);
    CaptureLine(VolumeLabel + "0.37");
  }

  /** A discharging battery at 82 shows "BAT 82-". */
  lemma ExampleDischarging()
    ensures BatteryField(ReadSysfs(Present(Some("82\n"))), ReadSysfs(Present(Some("Discharging\n")))) == "BAT 82-"
  {
    CaptureLine("82");
    assert "82" + "\n" == "82\n";
    CaptureLine("Discharging");
    assert "Discharging" + "\n" == "Discharging\n";
  }
}
