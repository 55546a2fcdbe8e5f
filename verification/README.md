# Sway status line formatter

`sway/status.php` prints the one line a sway status bar shows. The line has five
parts: what the media player is doing, the audio volume, the screen brightness,
the battery, and the time. The script asks `playerctl`, `wpctl` and `brightnessctl`,
reads two sysfs files and calls `date()`. Underneath those queries sits a small
pure formatter, and that formatter is what this project models and proves
things about:

- `php_string.dfy` (module `PhpString`) holds the PHP built-ins the formatter
  uses. These are `trim` with its default character list, `str_replace`,
  `implode`, the truth value of a string in an `if`, and the decimal text of a
  whole number interpolated into a string.
- `sway_status.dfy` (module `SwayStatus`) holds the formatter. `Readings` is
  everything one run reads from outside, and `StatusLine` is the printed line.
  Each field has its own function, with lemmas about each.
- `wrappers.dfy` (module `Wrappers`) holds `Option`, used for PHP's `null`.

Every external query is a parameter. A backtick command's output is an
`Option<string>`, where `None` is the `null` PHP gets when the command printed
nothing. A sysfs file is `Missing` or `Present` with its `cat` output. The
timestamp is an opaque string.

Three behaviours of the script are easy to miss:
- The media string is put in front of the other fields only when it is "true"
  in PHP. That string is always true, because it is either the literal
  `No players found` or contains a space. So the line always has five fields,
  and when no player runs it opens with `No players found`.
- The status annotation is `" ($status)"` whenever the status is not one of the
  three known states. A missing status file is `null`, which interpolates as
  nothing, so without battery files the field reads `BAT  ()`.
- The brightness division is unguarded. With a maximum of 0, PHP 8 throws
  `DivisionByZeroError` and prints no line, so the model requires a positive
  maximum.

## Model

| member | source | states |
|---|---|---|
| PhpString.Trim | sway/status.php:9 | `trim` drops the leading trimmable characters (space, tab, LF, CR, NUL, VT). The result is the slice that follows them. Everything cut off at either end is trimmable, and the result neither starts nor ends with a trimmable character |
| PhpString.TrimPadded | sway/status.php:3-4 | trimming a non-empty trimmed core wrapped in trimmable characters gives back exactly that core. So `No players found` followed by a newline compares equal to the literal on line 4 |
| PhpString.TrimIdempotent | sway/status.php:3 | trimming twice gives the same result as trimming once |
| PhpString.TrimOfTrimmed | sway/status.php:5 | a string with no trimmable character at either end is left unchanged by `trim` |
| SwayStatus.Capture | sway/status.php:9 | `trim(`cmd` ?? '')`: a command that printed nothing gives "". Otherwise the result is the `trim` of the output, so it is trimmed and no longer than the output |
| SwayStatus.CaptureLine | sway/status.php:3 | one line of tool output, ending in a line feed, is captured without the line feed |
| SwayStatus.ReadSysfs | sway/status.php:16-19 | the result is `null` exactly when the file does not exist. An existing file gives the captured (`?? ''` then `trim`) output of `cat` |
| SwayStatus.MediaSegment | sway/status.php:3-7 | the media string is always true in PHP (neither "" nor "0") and starts with the status. It equals the status exactly when no player is found. Otherwise it continues with a space and the metadata |
| SwayStatus.MetadataIgnoredWithoutPlayer | sway/status.php:4-7 | when no player is found, the metadata query has no influence on the line |
| PhpString.StrReplaceAbsent | sway/status.php:10 | `str_replace` leaves a subject unchanged when the search text does not occur in it |
| PhpString.StrReplaceShrinks | sway/status.php:10 | replacing an occurring search text with something shorter makes the subject strictly shorter |
| PhpString.StrReplaceDeleteChanges | sway/status.php:10 | deleting a non-empty search text changes the subject if and only if the text occurs in it |
| PhpString.StrReplaceLeading | sway/status.php:10 | for search text followed by a remainder free of it, the result is the replacement followed by the remainder |
| PhpString.StrReplace | sway/status.php:10 | `str_replace` never lengthens the subject when the replacement is no longer than the search text |
| SwayStatus.StripVolumeLabel | sway/status.php:10 | removing `Volume: ` never lengthens the text. The text is changed exactly when the label occurs in it |
| SwayStatus.StripLabelledVolume | sway/status.php:10 | `Volume: ` followed by a level free of the label gives exactly that level |
| SwayStatus.BrightnessPercent | sway/status.php:14 | the result r is 100·cur/max rounded to the nearest whole number, with halves rounded up: r − ½ ≤ 100·cur/max < r + ½ |
| SwayStatus.RoundedPercentUnique | sway/status.php:14 | only one whole number meets that rounding condition |
| SwayStatus.BrightnessZero | sway/status.php:14 | a current level of 0 shows 0 |
| SwayStatus.BrightnessFull | sway/status.php:14 | a current level equal to the maximum shows 100 |
| SwayStatus.BrightnessAtMostHundred | sway/status.php:14 | a current level at or below the maximum shows at most 100 |
| SwayStatus.BrightnessMonotone | sway/status.php:14 | a higher current level never shows a smaller percentage |
| PhpString.NatToString | sway/status.php:30 | the interpolated percentage is a non-empty string of decimal digits with no leading zero |
| PhpString.ParseNatToString | sway/status.php:30 | reading the digits back as a decimal number gives the percentage |
| PhpString.NatToStringInjective | sway/status.php:30 | different percentages print differently |
| SwayStatus.StatusAnnotation | sway/status.php:19-24 | the annotation is one character exactly for `Charging`, `Discharging` and `Not charging`. Any other status s (and `null`, read as "") gives " (" + s + ")" |
| SwayStatus.KnownStateAnnotations | sway/status.php:21-23 | `Charging` maps to "+", `Discharging` to "-" and `Not charging` to " " |
| SwayStatus.StatusAnnotationInjective | sway/status.php:21-24 | two status texts with the same annotation are equal, so the status can be read back from the annotation |
| SwayStatus.MissingStatusAnnotation | sway/status.php:19-24 | a missing status file gives " ()", the same as an empty one |
| SwayStatus.BatteryField | sway/status.php:31 | the field is "BAT ", then the capacity text ("" when the file is absent), then the annotation, each at a fixed position |
| SwayStatus.NoBatteryField | sway/status.php:16-31 | with neither battery file present the field reads `BAT  ()` |
| SwayStatus.ExampleDischarging | sway/status.php:16-31 | capacity `82` and status `Discharging`, each ending in a line feed, give `BAT 82-` |
| PhpString.Truthy | sway/status.php:34 | a string is true in PHP exactly when it has at least two characters, or one character that is not `0` |
| SwayStatus.Media | sway/status.php:3-7 | the media field of a run is true in PHP and opens with the captured player status. With no player it is exactly `No players found`; otherwise it is the captured status, a space and the captured metadata |
| SwayStatus.VolumeField | sway/status.php:29 | the field is `VOL ` followed by the captured level with every `Volume: ` removed, at most as long as `VOL ` plus the captured level. The level is shown unchanged exactly when it does not contain `Volume: `. A level of `Volume: ` followed by a reading free of the label shows exactly that reading |
| SwayStatus.BrightnessField | sway/status.php:30 | the field is `SCR ` followed by a non-empty run of decimal digits with no leading zero |
| SwayStatus.BrightnessFieldReadsBack | sway/status.php:30 | the digits of the brightness field read back as the rounded percentage |
| SwayStatus.Battery | sway/status.php:31 | the field is `BAT `, then the capacity read from sysfs ("" when the file is missing), then the annotation of the status read from sysfs |
| SwayStatus.Fields | sway/status.php:28-34 | there are always exactly five fields: the media, volume, brightness and battery fields, then the time, in that order |
| PhpString.Implode | sway/status.php:35 | the joined text is empty for no pieces. Otherwise it starts with the first piece and ends with the last |
| PhpString.ImplodeLength | sway/status.php:35 | the joined text is as long as all the pieces plus one separator per gap |
| PhpString.ImplodeCons | sway/status.php:35 | joining a piece in front of at least one other adds that piece and one separator |
| PhpString.ImplodeFive | sway/status.php:35 | five joined pieces are the pieces with a separator between each neighbouring pair |
| SwayStatus.StatusLine | sway/status.php:28-35 | the printed line starts with the media string and ends with the timestamp |
| SwayStatus.StatusLineShape | sway/status.php:28-35 | the line is the media, volume, brightness, battery and time fields, joined by the separator (space, bar, space) |
| SwayStatus.NoPlayerLine | sway/status.php:3-35 | when no player is found, the first field is the literal `No players found` and the line starts with it followed by the separator |
| SwayStatus.IdleLaptopFields | sway/status.php:28-34 | example: no player, `Volume: 0.37`, brightness 120 of 255 and no battery files give the fields `No players found`, `VOL 0.37`, `SCR 47`, `BAT  ()` and the time |
| SwayStatus.ExampleIdleLaptop | sway/status.php:28-35 | the same example joined into one line |
| SwayStatus.IdleLaptopRaw | sway/status.php:3-13 | raw outputs ending in a line feed satisfy the example's captured values |

## Left out

- Running `playerctl`, `wpctl`, `brightnessctl` and `cat`, and calling `file_exists`: their results are parameters (`Readings`).
- `date('Y-m-d h:i:s a')` and the system clock: the timestamp is an opaque string.
- `echo` and writing to standard output: `StatusLine` is the text that would be printed.
- BrightnessPercent: computed on exact rationals, rounding halves up. PHP works in floating point (`/`, then `round`, which rounds halves away from zero; this is the same rule for non-negative values). Floating-point error in the quotient is not modelled.
- BrightnessPercent: requires a positive maximum. With a maximum of 0, PHP 8 throws `DivisionByZeroError` and prints no line; PHP 7 warns and goes on with INF or NAN. Neither is modelled.
- BrightnessPercent: the readings are natural numbers. With non-numeric `brightnessctl` output, PHP 8 raises a `TypeError`, and PHP 7 warns and reads the text as 0. Neither is modelled.
- NatToString: renders the rounded percentage as a whole number. PHP prints the float `round` returns, and switches to exponent notation for very large values. Only a current level far above the maximum could reach that, and this is not modelled.
- Byte strings: PHP strings are byte strings, but the model uses sequences of characters. No behaviour here depends on the difference, because the trimmable characters, `Volume: ` and the status texts are ASCII. The length bounds (in StripVolumeLabel, VolumeField and Capture, for example) count characters, not bytes.
