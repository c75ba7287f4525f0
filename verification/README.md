# Brewlet core logic in Dafny

Brewlet is a macOS menu-bar agent for Homebrew. It runs `brew` periodically, decodes the
output, and shows the results in its status menu. This project models the pure logic
inside the app:

- **Package decoding** (`Brewlet/Package.swift`). `packagesFromJson` turns the flat-array
  JSON of `brew info --json --installed` into `Package`, `Version` and `InstalledPackage`
  records. Every missing or mistyped field gets a fixed default. A root that is not an
  array of dictionaries gives an empty list. Only unparseable input throws.
  `getInstalledVersion` picks the first installation. The model decodes an abstract JSON
  tree (`json.dfy`). The parser's rejection of the bytes is the `Document.Malformed` case.
- **The decision functions of the app delegate** (`Brewlet/AppDelegate.swift`):
  - the argument vector `run_command` builds;
  - the outdated count, which is the number of non-empty lines of `brew outdated`;
  - the status title and icon chosen from that count;
  - the analytics title chosen from `brew analytics state`, and the `on`/`off` command
    chosen from that title;
  - the timer periods;
  - which commands are issued from which completion handlers;
  - invalidating the timers at teardown.
- **The preferences window** (`Brewlet/PreferencesController.swift`). It converts between
  slider ticks and update intervals in seconds. It also sets the checkbox on load and
  forwards its state when pressed.

Modules: `Wrappers` (Option, Result), `Json` (the JSON tree and the Swift `as?` casts),
`Packages`, `Text` (line splitting, `contains`, lower-casing, decimal rendering),
`Commands`, `StatusMenu`, `Timers`, `Preferences`.

Brewlet at this revision decodes only the flat-array JSON shape. It has no
`formulae`/`casks` schema and no `revision` field. `run_command` captures standard output
only, not standard error. The app has no comparison of package snapshots, no
notifications, no services, no dependency filter, and no single timer that can be
re-armed with a new period. None of these appear in the model.

Line counting follows Swift's `Character` semantics. Swift's `split(separator: "\n")` compares
grapheme clusters, and "\r\n" is one cluster that is not equal to "\n". Under the
grapheme cluster boundary rules of Unicode Standard Annex #29 (rules GB3 to GB5), a
line feed is a cluster of its own except when a carriage return precedes it. So the
model splits at a '\n' exactly when no '\r' comes right before it.

## Model

| member | source | states |
|---|---|---|
| Packages.InstalledVersion | Brewlet/Package.swift:31-37 | the installed version is absent exactly when there is no installation, and is otherwise the first installation's version |
| Packages.CountRequested | Brewlet/Package.swift:92 | the count of requested installations never exceeds the number of installations, and is zero exactly when none was installed on request |
| Packages.PackagesFromJson | Brewlet/Package.swift:62-104 | only malformed input fails; a root that is not an array whose every element is an object decodes to no packages; otherwise there is one package per element, decoded from that element, in order |
| Packages.ScalarDefaults | Brewlet/Package.swift:66-68 | name is the `name` string or "Unknown"; desc is the `desc` string or absent; outdated is the `outdated` boolean or false |
| Packages.StableDefault | Brewlet/Package.swift:72-76 | the stable version is `versions.stable` when `versions` is an object and `stable` is a string in it, and "?" in every other case |
| Packages.InstallsDecoded | Brewlet/Package.swift:78-90 | an `installed` array of objects gives one installation per entry, in order, with version "Unknown" and both flags false unless the entry supplies them with the right type; any other `installed` value gives none |
| Packages.DecodedRequestedFlag | Brewlet/Package.swift:78-92 | a decoded package is installed on request iff at least one of its installations is |
| Packages.DecodedNotInstalled | Brewlet/Package.swift:78-99 | a decoded package with no installations is not installed on request and has no installed version |
| Packages.DecodedInstalledVersion | Brewlet/Package.swift:31-37 | for a decoded package, the installed version is present iff `installed` is a non-empty array of objects, and is then the first entry's version string or "Unknown" |
| Packages.DecodeEncodeInstall | Brewlet/Package.swift:80-88 | decoding the JSON of an installation gives the same installation back |
| Packages.DecodeEncodePackage | Brewlet/Package.swift:65-99 | decoding the JSON of a package gives the package back, whenever its on-request flag agrees with its installations |
| Packages.DecodeEncode | Brewlet/Package.swift:62-104 | decoding the JSON array of such packages gives back every package, in order |
| Json.ObjectsOf | Brewlet/Package.swift:79 | the cast to an array of dictionaries succeeds iff every element is an object, and then keeps each element's fields in order |
| Commands.BrewInvocation | Brewlet/AppDelegate.swift:152-155 | every command launches `/bin/bash` with the brew path first, followed by the caller's arguments unchanged and in order |
| Commands.BrewArgumentsInverse | Brewlet/AppDelegate.swift:154-155 | reading the arguments back out of a launched invocation recovers exactly the caller's arguments, and only that invocation yields them |
| Commands.ToggleCommand | Brewlet/AppDelegate.swift:77-78 | the toggle command is "on" iff the menu title contains "on", and "off" otherwise |
| Commands.UpdateUpgradeOrder | Brewlet/AppDelegate.swift:64-75 | update then upgrade issues each of update, upgrade, outdated and info once; upgrade runs only after update completes; both refreshes run only after upgrade completes, and neither waits for the other; nothing orders upgrade before update |
| Commands.ToggleAnalyticsOrder | Brewlet/AppDelegate.swift:77-82 | the toggle switches analytics, and only once that completes refreshes the analytics state |
| Text.Split | Brewlet/AppDelegate.swift:108 | splitting yields only non-empty pieces, none holding a line feed that stands alone as a Character (one not preceded by a carriage return) |
| Text.SplitFromNewline | Brewlet/AppDelegate.swift:108 | when the first part does not end in a carriage return, splitting two parts joined by a newline gives the pieces of the first part, then those of the second |
| Text.SplitJoin | Brewlet/AppDelegate.swift:108 | splitting lines joined with newlines gives back exactly those lines, when no line ends in a carriage return |
| Text.SplitTrailingNewline | Brewlet/AppDelegate.swift:108 | a trailing newline never changes the number of pieces, and after anything but a carriage return leaves the pieces unchanged |
| Text.CrLfIsNotASeparator | Brewlet/AppDelegate.swift:108 | "a\r\nb" splits into the single piece "a\r\nb", because "\r\n" is one Character |
| Text.SplitEmptyIffBlank | Brewlet/AppDelegate.swift:108 | splitting yields no piece iff the text is empty or only newlines |
| Text.Lower | Brewlet/AppDelegate.swift:92 | lower-casing keeps the length, maps each of 'A'..'Z' to its lower-case letter, and leaves every other character unchanged |
| Text.NatToString | Brewlet/AppDelegate.swift:114 | a count is rendered as a non-empty string of digits with no leading zero |
| Text.ParseNatToString | Brewlet/AppDelegate.swift:114 | reading the rendered digits back gives the count |
| StatusMenu.OutdatedCount | Brewlet/AppDelegate.swift:108 | the outdated count is zero iff the output is empty or only newlines |
| StatusMenu.CountOfListing | Brewlet/AppDelegate.swift:107-108 | output that lists one package per line, no line ending in a carriage return, with or without a trailing newline, counts exactly the listed packages |
| StatusMenu.CrLfCountsOnce | Brewlet/AppDelegate.swift:108 | output "a\r\nb" counts as one outdated line |
| StatusMenu.OutdatedStatus | Brewlet/AppDelegate.swift:111-119 | the icon is "BrewletIcon-Color" iff some package is outdated, and "BrewletIcon-Black" iff none is |
| StatusMenu.TitleStatesCount | Brewlet/AppDelegate.swift:113-118 | the title is "Packages are up-to-date" iff the count is 0; otherwise it is the count in decimal with no leading zero, followed by " Outdated Packages", and the count can be read back from the title |
| StatusMenu.UpToDateIffBlank | Brewlet/AppDelegate.swift:108-119 | the black icon and the up-to-date title are shown iff `brew outdated` printed no non-empty line |
| StatusMenu.AnalyticsTitle | Brewlet/AppDelegate.swift:92-96 | the analytics item is titled "Toggle analytics on" iff the lower-cased state output contains "disabled", and "Toggle analytics off" otherwise |
| StatusMenu.OffTitleLacksOn | Brewlet/AppDelegate.swift:95 | the "Toggle analytics off" title does not contain "on" |
| StatusMenu.ToggleFollowsState | Brewlet/AppDelegate.swift:77-96 | toggling from the refreshed title sends "on" iff the lower-cased state output contains "disabled", and "off" otherwise |
| StatusMenu.BeginCheckAsWritten | Brewlet/AppDelegate.swift:104-105 | as written, the check puts "Checking..." on the item tagged 0 and changes no other item |
| StatusMenu.FinishCheck | Brewlet/AppDelegate.swift:107-119 | the completion handler writes the status title for the output's count to the outdated item (tag 1) and changes no other item |
| StatusMenu.BeginCheck | Brewlet/AppDelegate.swift:104-105 | corrected version, as in the Findings row: the check shows "Checking..." on the outdated item and changes no other item |
| StatusMenu.AsWrittenLeavesPlaceholder | Brewlet/AppDelegate.swift:103-109 | as written, a finished check leaves "Checking..." on the item tagged 0, which is not the outdated item |
| StatusMenu.CheckChangesOnlyOutdatedItem | Brewlet/AppDelegate.swift:103-119 | with the placeholder on the outdated item, a finished check changes only that item, which then shows the status title; the placeholder leaves no trace |
| Timers.SetupTimers | Brewlet/AppDelegate.swift:37-55 | setup appends exactly three valid repeating timers and keeps the earlier ones: the outdated check and the info refresh every 3600 s, the analytics refresh every 86400 s |
| Timers.OneTimerPerPoll | Brewlet/AppDelegate.swift:37-55 | after setup from no timers, each refresh has exactly one active timer |
| Timers.Invalidate | Brewlet/AppDelegate.swift:192 | an invalidated timer is invalid and keeps its period, repetition and refresh |
| Timers.TearDown | Brewlet/AppDelegate.swift:188-195 | after teardown every timer is invalid and otherwise unchanged; timers that were already invalid are untouched, so a second teardown changes nothing |
| Timers.NoneActiveAfterInvalidation | Brewlet/AppDelegate.swift:188-195 | once every timer is invalid, no refresh has an active timer |
| Preferences.SliderMoved | Brewlet/PreferencesController.swift:52-63 | tick 10 sends no interval ("Never"); any other tick t sends t half-hours in seconds |
| Preferences.SliderPosition | Brewlet/PreferencesController.swift:39-45 | the value `windowDidLoad` assigns to the slider is its maximum for a stored -1, and two ticks per hour of any other stored interval |
| Preferences.TickRoundTrip | Brewlet/PreferencesController.swift:39-59 | for every tick other than 10, loading the interval that tick sends puts the slider back on that tick |
| Preferences.PositionIffTick | Brewlet/PreferencesController.swift:39-59 | for a stored interval other than -1 and a tick other than 10, the slider loads on that tick iff that tick sends exactly that interval |
| Preferences.NeverRoundTrip | Brewlet/PreferencesController.swift:40-57 | with the never tick as the slider's maximum, a stored -1 reloads onto the tick that sends no interval |
| Preferences.CheckboxState | Brewlet/PreferencesController.swift:33-37 | the checkbox loads on iff the stored include-dependencies flag is true |
| Preferences.CheckboxPressed | Brewlet/PreferencesController.swift:48-50 | pressing the checkbox forwards its new state to the delegate unchanged |
| Preferences.CheckboxRoundTrip | Brewlet/PreferencesController.swift:33-50 | pressing the checkbox as loaded forwards a state that is on iff dependencies are included |

## Left out

- Byte-level JSON parsing (`JSONSerialization`) is a foreign library. The decoder takes a parsed tree. Any parser rejection, including the parser's refusal of a bare scalar at top level, is the single `Malformed` case.
- Packages.PackagesFromJson: treats only JSON booleans as `Bool`. Foundation bridges the JSON numbers 0 and 1 to `Bool` as well, and this bridging is not modelled. JSON numbers are integers, since the decoder never reads a number. Duplicate object keys are not represented.
- Process spawning is not modelled: pipes, the asynchronous termination handler, UTF-8 decoding of the output, and the logging of `task.run()` errors. These are I/O and concurrency. Only the argument vector and the order of completion handlers are modelled.
- Commands.UpdateUpgradeOrder: states the causal order of commands only. It does not model interleavings of concurrent commands in real time.
- The UI and persistence are not modelled: `NSMenu`, `NSStatusItem`, icons set on the main queue, enabling and disabling menu items, the "Updating analytics..." title, `update_info` copying the output into a menu title, `os_log`, `UserDefaults`, window placement, and `NSApplication.terminate`.
- The initial refreshes in `applicationDidFinishLaunching` are not modelled: they are three independent command launches followed by timer setup, and only the setup is modelled.
- `export_list` writes a file to the Downloads folder. This is file I/O.
- Real-time timer firing is not modelled. Only periods, repetition, the refresh each timer triggers, and valid flags are.
- Text.Contains: finds matches code point by code point, whereas Swift's `String.contains` compares Characters (grapheme clusters). The two differ only when a match starts on a combining mark or one follows it. For example, "disabled" followed by U+0301 is a match in the model and not in Swift. Unicode grapheme segmentation is not modelled. The same holds for `ToggleCommand` and `AnalyticsTitle`, which use it.
- Text.Lower: lower-cases ASCII letters only, because Unicode case mapping is not modelled. The keyword "disabled" is ASCII.
- Preferences.SliderPosition: gives the value assigned to the slider's `doubleValue`. It does not model NSSlider pinning that value to the slider's `[minValue, maxValue]` range, because the range is set in the interface file. For example, a missing stored interval reads as 0 and yields 0.0, wherever the slider's minimum lies.
- Preferences.SliderPosition: computes with exact rationals rather than `Double`, so rounding is not modelled. For every integer tick the source's arithmetic is exact as well.
- Preferences.SliderMoved: takes an integer tick, as if the slider only stops on tick marks; the source reads `intValue` for the never test and `doubleValue` for the hours. The tooltip string is not modelled.
- The slider's maximum is set in the interface file, which is not part of this model, so it is a parameter.
- `BrewletTests/BrewletTests.swift` tests members that `AppDelegate` at this revision does not have (`formatDate`, `animateIcon`, `updateIntervalChanged`, `userDefaults`). So those behaviours are not modelled.

## Findings

| source | as written | input that shows it | evidently intended | confidence | as-written member | corrected member |
|---|---|---|---|---|---|---|
| Brewlet/AppDelegate.swift:104-109 | `check_outdated` puts "Checking..." on the menu item tagged 0. On completion it writes the status to the item tagged `name2tag["outdated"]`, which is 1. | Any menu whose item tagged 0 is not the outdated item, e.g. tag 0 "Preferences..." and tag 1 "Packages are up-to-date", with empty output. Afterwards tag 0 still reads "Checking..." | The placeholder goes on the outdated item, and the status then replaces it | medium, not executed | StatusMenu.AsWrittenLeavesPlaceholder | StatusMenu.CheckChangesOnlyOutdatedItem |
