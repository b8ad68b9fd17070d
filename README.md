# Window Manager App: hotkey-driven window geometry, in Dafny

The Window Manager App binds global hotkeys to window transforms of the
foreground window. The transforms are resize to 80%, 60% or 100% of the
monitor's work area (centred), centre without resizing, and user-defined
resize percentages. It also binds a two-key "minimize sequence":
ctrl+shift+h, then ctrl+shift+m within two seconds, minimizes every visible
window on the monitor under the cursor. Shortcuts and custom actions persist
in a JSON settings file. On load, each special character of a hotkey is
rewritten into a key name.

The model has six modules:

- `Wrappers` (`wrappers.dfy`): the Option type.
- `Geometry` (`geometry.dfy`): the rectangle record, the open-interval overlap
  test, and the placement formulas of the resize and centre commands. A scale
  is an integer percentage.
- `Actions` (`actions.dfy`): the callbacks a hotkey can run, and the placement
  each window transform hands to `SetWindowPos`. A foreground handle of 0
  means there is no window, and then nothing happens.
- `Settings` (`settings.dfy`): the 12-entry special-character rewrite as the
  loop of `str.replace` calls. It is proved equal to a per-character
  reference, free of special characters and idempotent. The module also holds
  Python's `strip`/`isdigit` as the dialog uses them, the check of the OK
  button, and loading and saving of the settings object, each with its
  defaults.
- `Hotkeys` (`hotkeys.dfy`): the `self.hotkeys` map as a class whose methods
  register and unregister one hotkey, unregister all, and rebuild everything
  in the source's order. The rebuild is proved equal to a fold over the
  binding list. Lemmas relate that fold to a last-accepted-binding reference.
- `Minimize` (`minimize.dfy`): the minimize-all filter as a loop over the
  enumerated windows, and the two-field minimize-sequence state machine as a
  class.

The model follows the code in these places:

- A window lying only over the taskbar is minimized, because the filter uses
  the monitor's full bounds, not its work area.
- The rewrite table is applied in order, so `[` first becomes `left bracket`.
  The final space entry then turns that into `leftspacebracket`, as the code
  does (`Settings.LeftBracketBecomesLeftSpaceBracket`).
- A custom percentage is only checked with `isdigit`. So `0` and values above
  100 are accepted: nothing in the program bounds it to (0, 100]. Above 100,
  the window covers the whole work area (`Geometry.OversizedCoversWorkArea`).
- A rebuild keeps any old entry that the listener failed to remove. So the
  live map matches the saved form only when every removal succeeds
  (`Hotkeys.RebuildForgetsHistory`).
- Pixel sizes use Python's `int()`, which truncates toward zero, rather than
  floor. The two agree for non-negative sizes.

## Model

| member | source | states |
|---|---|---|
| Geometry.RectsIntersect | main.py:36-38 | the open-interval edge test; what it means is stated by the lemmas below, chiefly IntersectIffSharedPixel |
| Geometry.IntersectSymmetric | main.py:36-38 | the overlap test gives the same answer with its arguments swapped |
| Geometry.EdgeTouchingDoesNotIntersect | main.py:36-38 | (0,0,100,100) and (100,0,200,100), which share only an edge, do not intersect |
| Geometry.IntersectIffSharedPixel | main.py:36-38 | for rectangles of positive area, the edge test holds exactly when some pixel lies in both |
| Geometry.DegenerateRectCanIntersect | main.py:36-38 | a zero-width rectangle inside another counts as intersecting it, though it covers no pixel |
| Geometry.TruncDiv | main.py:244-245 | Python's `int()` of a quotient: the result truncates toward zero, lying within one divisor of the exact quotient on the side of zero |
| Geometry.ScaledLength | main.py:244-245 | for a non-negative length, `int(length * percent / 100)`: the largest non-negative r with 100 r at most length times percent |
| Geometry.ScaledPlacement | main.py:244-249 | the resize uses the scaled width and height of the work area, centred with margins balanced to within one pixel |
| Geometry.Centre | main.py:246-247 | the size is kept, and the left and right leftover margins (likewise top and bottom) differ by 0 or 1, the extra pixel on the right or bottom |
| Geometry.CenteredPlacement | main.py:274-281 | centring passes the window's own width and height unchanged, with balanced margins |
| Geometry.ScaledLengthBounds | main.py:244-245 | a scaled length of a non-negative length at a percentage of at most 100 lies between 0 and the length |
| Geometry.FullScaleIsWorkArea | main.py:244-249 | at 100% the placement is exactly the work area's left, top, width and height |
| Geometry.ScaledInsideWorkArea | main.py:244-247 | for a well-formed work area and 0 < percent <= 100, the placed window lies inside the work area, with margins balanced to within one pixel |
| Geometry.OversizedCoversWorkArea | main.py:244-247 | above 100% nothing is clamped: the placed window covers the whole work area |
| Geometry.CenterAfterResizeIsNoOp | main.py:244-281 | centring a window right after a resize leaves it where the resize put it |
| Geometry.CenterIdempotent | main.py:274-281 | centring twice is centring once |
| Actions.ResizePercent | main.py:219-268 | exactly the four resizing callbacks carry a scale: 80 for resize 80, 60 for resize 60, 100 for fullscreen, and a custom one its own percentage |
| Actions.Perform | main.py:252-281 | a transform moves the window exactly when there is a foreground window; centring gives the centred placement of the window in its work area, and a resize the scaled placement at the action's percentage; a resize of at most 100% stays inside the work area |
| Actions.FullscreenFillsWorkArea | main.py:264-268 | fullscreen places the foreground window exactly on its monitor's work area |
| Settings.ReplaceChar | main.py:395-396 | one `str.replace`: when the replacement lacks the character, no occurrence of it survives |
| Settings.Rewrite | main.py:377-396 | the replace call of one table entry leaves no occurrence of that entry's symbol |
| Settings.Normalize | main.py:395-396 | the successive replacements of one hotkey equal the per-character rewrite, and no special character survives |
| Settings.NormalizeHotkey | main.py:392-396 | the replace loop's result equals the per-character reference and contains no special character |
| Settings.NormalizeIsPerCharacter | main.py:377-396 | the twelve successive replacements equal rewriting each character on its own |
| Settings.NormalizeChar | main.py:377-390 | each table symbol becomes its key name (brackets with their space spelt out); other characters are kept |
| Settings.LeftBracketBecomesLeftSpaceBracket | main.py:387-389 | a hotkey such as `ctrl+[` ends in `leftspacebracket`, because the space entry comes after the bracket entries |
| Settings.NormalizeKeepsPlain | main.py:377-396 | a hotkey without special characters, such as `ctrl+shift+h`, passes unchanged |
| Settings.NormalizeIdempotent | main.py:377-396 | normalising twice is normalising once |
| Settings.Strip | main.py:189 | `str.strip()` leaves neither a leading nor a trailing whitespace character |
| Settings.StripEmptyIffBlank | main.py:189 | `not hotkey.strip()` holds exactly for empty and whitespace-only strings |
| Settings.IsDigitString | main.py:482 | `percentage.isdigit()`: a non-empty string of digits (ASCII only); its consequences are stated by AcceptCustomAction and the two dialog lemmas |
| Settings.DigitsValue | main.py:180 | the number `float()` reads from a digit string, the percentage a custom resize is bound with |
| Settings.AcceptCustomAction | main.py:478-487 | the dialog accepts exactly a digit-string percentage with a non-blank hotkey, and returns both unchanged |
| Settings.DialogAcceptsZeroAndOversized | main.py:482 | percentages "0" and "150" pass the check |
| Settings.DialogRejectsDecimalOrBlank | main.py:482 | "7.5" is refused, and so is a whitespace-only hotkey |
| Settings.NormalizeActions | main.py:403-409 | each loaded custom action keeps its percentage, and its hotkey is the per-character rewrite of the stored one, free of special characters |
| Settings.Load | main.py:366-409 | each shortcut is the per-character rewrite of its stored value, or '' when the key is missing; startup is on only when stored as true; each custom action keeps its percentage and has its hotkey rewritten; a missing file gives empty shortcuts, startup off and no custom actions |
| Settings.Save | main.py:349-358 | the written object holds each of the four shortcuts, the startup flag and the custom actions exactly as in the form |
| Settings.SaveLoadRoundTrip | main.py:349-409 | loading what was saved from a normalised form gives the form back |
| Settings.LoadSaveLoadStable | main.py:349-409 | load, save and load again gives the first load |
| Hotkeys.Bind | main.py:187-198 | one registration touches no hotkey but its own and removes no entry |
| Hotkeys.BindAll | main.py:161-198 | registrations in order remove no entry, and every new key is the hotkey of some binding |
| Hotkeys.BindAccepts | main.py:187-194 | one registration stores the binding exactly when the hotkey is non-blank and accepted by the listener, else the map is unchanged |
| Hotkeys.BindAllMatchesReference | main.py:187-198 | after a series of registrations each hotkey holds the action of its last accepted binding, or its old entry if it had none |
| Hotkeys.LastAcceptedSomeIff | main.py:187-198 | a hotkey is bound afterwards exactly when it was bound before or some accepted binding names it |
| Hotkeys.RebuildKeys | main.py:161-185 | after a rebuild in which every removal succeeds, the bound hotkeys are exactly the accepted ones of the form |
| Hotkeys.RebuildForgetsHistory | main.py:161-217 | when every removal succeeds, the rebuilt map does not depend on the map before |
| Hotkeys.SequenceHotkeysBound | main.py:183-185 | unless the listener rejects them, ctrl+shift+h and ctrl+shift+m end up bound to the sequence, whatever the form holds |
| Hotkeys.CustomBindings | main.py:178-181 | one binding per custom action, in tree order, under the action's hotkey and bound to a resize by the number its percentage denotes |
| Hotkeys.HotkeyRegistry.constructor | main.py:70 | the registry starts empty |
| Hotkeys.HotkeyRegistry.Register | main.py:187-198 | a blank hotkey is skipped and a rejected one leaves the map alone; otherwise the map gains or overwrites that entry |
| Hotkeys.HotkeyRegistry.RegisterCustom | main.py:200-203 | registers the resize to the typed percentage under the hotkey, with the same outcomes |
| Hotkeys.HotkeyRegistry.Unregister | main.py:205-212 | the entry is removed unless the listener's removal raised; an unknown hotkey changes nothing |
| Hotkeys.HotkeyRegistry.UnregisterAll | main.py:214-217 | only the entries whose removal raised survive; with none stuck, the map is empty |
| Hotkeys.HotkeyRegistry.RegisterAll | main.py:161-185 | the new map is the four predefined shortcuts, the custom actions and the two sequence hotkeys registered in that order over what unregistering left |
| Hotkeys.HotkeyRegistry.SaveSettings | main.py:349-363 | the written object is the saved form, and the hotkeys are then rebuilt from it |
| Minimize.Qualifies | main.py:437-442 | the handler's test: visible, not `self.hwnd`, and overlapping the monitor's full bounds; TargetsExactly states its role |
| Minimize.Targets | main.py:436-442 | every handle minimized belongs to an enumerated window that passes the handler's test, and there are no more of them than windows |
| Minimize.TargetsExactly | main.py:430-444 | a handle is minimized exactly when some enumerated window with it is visible, is not the app's own window and overlaps the monitor's full bounds |
| Minimize.OwnWindowSpared | main.py:437-438 | the window whose handle equals `self.hwnd` is never minimized |
| Minimize.TaskbarWindowMinimized | main.py:432-442 | a visible window lying only over the taskbar, outside the work area, is minimized |
| Minimize.MinimizeAllOnMonitor | main.py:430-445 | the handler loop minimizes exactly the qualifying windows, in enumeration order |
| Minimize.MinimizeSequence.constructor | main.py:72-73 | the sequence starts disarmed with start time 0 |
| Minimize.MinimizeSequence.Start | main.py:411-415 | arming always sets the flag and overwrites the start time |
| Minimize.MinimizeSequence.Complete | main.py:417-428 | it fires only when armed and at most 2000 ms have passed (inclusive), otherwise it times out or does nothing; it is disarmed afterwards in every case |
| Minimize.SequenceScenario | main.py:411-428 | second key after 1.9 s fires; pressing it again does nothing; after 2.1 s it times out; at exactly 2 s it fires |

## Left out

- The tkinter interface is not modelled: widget layout, the tree view, message boxes, and the dialog window beyond its OK check.
- `add_custom_action` and `remove_custom_action` (main.py:140-159) are tree edits. Their effect on the registry is `RegisterCustom` or `Unregister`, followed by the rebuild in `SaveSettings`.
- The system tray icon, its image and its daemon thread are not modelled (concurrency and a foreign library).
- `restore_window`, `exit_app` and `on_exit` are not modelled. On exit, the hotkey state change is `UnregisterAll`; window destruction is GUI.
- `set_startup` and `on_startup_checkbox` edit the Windows registry. That is OS I/O; only the `startup` flag is kept in the settings.
- Reading and writing the JSON file is not modelled. `StoredSettings` is the parsed object.
- The model does not cover malformed JSON, fields of the wrong type, or a custom action missing `percentage` or `hotkey` (a KeyError in the source).
- The win32 calls are inputs. `Actions.Perform` takes the foreground handle (0 when none), the window's rectangle and its monitor's information, and returns the `SetWindowPos` arguments.
- `Minimize.MinimizeAllOnMonitor` takes the enumerated windows and the cursor monitor's information, and returns the handles passed to `ShowWindow`.
- The keyboard library is represented by parameters: whether `add_hotkey` accepts a hotkey (rejected hotkeys for a rebuild) and whether `remove_hotkey` succeeds (stuck hotkeys). Its own parsing of hotkey strings is not modelled.
- Logging is not modelled.
- Geometry.ScaledLength: the scale is an exact integer percentage, whereas the source multiplies by a float. For example, width 100 at 29% is 28 in Python (100 * 0.29 is just below 29) and 29 here.
- Minimize.MinimizeSequence.Complete: `time.time()` floats become integer milliseconds from the caller. The two-second bound becomes 2000 ms, so sub-millisecond differences are not modelled.
- Settings.IsDigitString: only the ASCII digits count. Python's `isdigit` also accepts other Unicode digits.
- Settings.IsSpace: whitespace is Python's `str.isspace` character list, hard-coded.
- Hotkeys.HotkeyRegistry.RegisterCustom: requires an ASCII digit-string percentage. The dialog guarantees only Python's `isdigit` (main.py:482), which also accepts characters such as `²` that `float()` refuses. For such input, `float()` raises ValueError at main.py:202, after the row was already inserted into the tree (main.py:146) and before the settings are saved. That crash path is not modelled.
- Hotkeys.CustomBindings: requires ASCII digit-string percentages. A hand-edited settings file can hold other percentages, and `Load` keeps them as written. `float()` at main.py:180 accepts many of them, such as `7.5`, ` 75 `, `1e2` or Arabic-Indic digits, and the source then resizes by that factor. The integer-percentage model excludes these accepted percentages. It also excludes the ones `float()` refuses, such as `²`, for which main.py:180 raises ValueError.
- Hotkeys.HotkeyRegistry.RegisterAll: the same requirement as `CustomBindings`. Once a percentage that `float()` refuses is in the tree, a rebuild raises at main.py:180. The rebuild at startup (main.py:78-79) runs inside the constructor (main.py:53-59, called at main.py:496), where nothing catches the error, so the program exits before `mainloop()`. A later rebuild runs from a Tk callback, such as `save_settings` after an edit. It leaves the remaining custom hotkeys and the two sequence hotkeys (main.py:184-185) unregistered. Neither path is modelled; both are read from the code as written.
- Hotkeys.HotkeyRegistry.SaveSettings: the same requirement as `RegisterAll`, with the same unmodelled failure of the rebuild from a callback.
- Minimize.OwnWindowSpared: `own` stands for `self.hwnd`, which is set from `winfo_id()` (main.py:65). That is the handle of the Tk widget, which need not be the top-level window that `EnumWindows` reports. So the model does not promise that the application's visible window is spared.
- Minimize.MinimizeAllOnMonitor: an exception from `GetWindowRect` (main.py:439), for instance for a window closed during the enumeration, would end the batch early. That is not modelled; every enumerated window is examined.
- Hotkeys.HotkeyRegistry.UnregisterAll: removes the keys in an arbitrary order rather than insertion order. The final map does not depend on the order.
- `build_exe.py` is not part of this model. It is a packaging script made entirely of subprocess and file-system calls.
