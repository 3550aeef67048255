# wf-wallpaper, modelled in Dafny

wf-wallpaper is a Wayfire plugin. It puts one background view behind every
workspace of an output and fills it with a picture or with a Shadertoy-style
GLSL shader. This project models the parts of `wallpaper.cpp` and
`clocks.hpp` that are plain integer, byte and string logic, and proves
properties about them.

- **Loadable cache** (`loadables.dfy`).
  - `loadable_cache_t` is a map from a resolved path to an entry; it is modelled as a class with a `map` field.
  - `loadable_t` is modelled as a class with an explicit owner count standing in for `shared_ptr`/`weak_ptr`.
  - The class covers the constructor, `loader_done` and the destructor.
  - `realpath`, spawning the loader, registering with the event loop, reaping, `fstat` and `mmap`/`munmap` are parameters of the operations.
- **Transfer record** (`bytes.dfy`, `transfer_record.dfy`, `utf8.dfy`, `shader_features.dfy`).
  - The five-word `shm_header` and the segment the loader child writes: either a GLSL file, or GdkPixbuf pixels.
  - The child's text sniff: is the first KiB valid UTF-8 in GLib's sense (section 4 of RFC 3629, NUL rejected)?
  - `load_renderable`, written both as the code is and with the missing bounds checks added.
  - The `uses_*` substring flags of a shader.
- **Views** (`view.dfy`). `wallpaper_view_t`'s fields as a class:
  - the pointer and touch handlers;
  - `accepts_input`, `on_something_loaded` and `set_sizing_mode`;
  - the frame counters and C++ truncating `%` of `tick_animation`;
  - the date arithmetic that builds `iDate`.
- **Workspace matching** (`workspaces.dfy`).
  - `workspace_specificity`.
  - `match_add_view`, including a model of `std::stringstream >> int`: whitespace skip, sign, digit run, `int` range, and the one-character separator skip.
- **The plugin** (`plugin.dfy`):
  - `load_config`: the section filter, the `std::map` walk with the `lower_bound` insertion into `confs_order`, and first-match assignment of views;
  - the workspace, output-configuration and grid-changed handlers (index and geometry arithmetic);
  - the `tick_animations` hook.
- **Clocks** (`clocks.dfy`): `posix_clock::now`/`get_resolution` as nanosecond counts, `to_time_t` truncation, and which clock each platform picks.

Two facts about the code that the model keeps:
- A failed load emits no "loaded" signal, so subscribers are never told about it. `LoaderDone` states that failure emits nothing.
- A GLSL record's `len` field stays 0. The shader body is the whole segment after the header (wallpaper.cpp:226), not `len` bytes.

## Model

| member | source | states |
|---|---|---|
| Clocks.TimespecDuration | clocks.hpp:21 | the count is tv_sec * 10^9 + tv_nsec; for a normalised timespec, division by 10^9 gives back tv_sec and tv_nsec |
| Clocks.Now | clocks.hpp:17-22 | the time point's nanosecond count is tv_sec * 10^9 + tv_nsec; for tv_sec >= 0 and 0 <= tv_nsec < 10^9, to_time_t of it is tv_sec |
| Clocks.GetResolution | clocks.hpp:28-33 | the resolution is the same nanosecond conversion of the clock_getres reading |
| Clocks.ToTimeT | clocks.hpp:24-26 | the result is the nanosecond count divided by 10^9, truncated toward zero (floor for non-negative counts, ceiling for negative ones) |
| Clocks.ToTimeTOfNormalised | clocks.hpp:24-26 | round trip: to_time_t of the point built from a normalised non-negative timespec is tv_sec |
| Clocks.ToTimeTMonotone | clocks.hpp:24-26 | to_time_t is monotone in the time point |
| Clocks.NegativeReadingRoundsUp | clocks.hpp:24-26 | the round trip fails below the epoch: a negative tv_sec with nonzero tv_nsec gives tv_sec + 1 |
| Clocks.FastMonoClock | clocks.hpp:36-42 | the fast monotonic clock is steady and uses a monotonic clock id, preferring the FAST variant, then COARSE, then plain |
| Clocks.FastWallClock | clocks.hpp:44-50 | the fast wall clock is not steady and uses a realtime clock id, with the same preference order |
| Bytes.WordRoundTrip | wallpaper.cpp:87-90 | a size_t header word written in either byte order reads back unchanged |
| Bytes.LeRoundTrip | wallpaper.cpp:87-90 | little-endian bytes of a value below 256^n decode back to it |
| Bytes.LeBytesRoundTrip | wallpaper.cpp:87-90 | any n bytes read as a little-endian value encode back to themselves |
| Bytes.WordBytesRoundTrip | wallpaper.cpp:161-165 | any 8 bytes read as a size_t word, in either byte order, encode back to themselves |
| TransferRecord.EncodeHeader | wallpaper.cpp:87-90 | the header occupies sizeof(shm_header) = 40 bytes |
| TransferRecord.HeaderBytesRoundTrip | wallpaper.cpp:161-165 | the header the parent reads through its shm_header pointer from any 40 bytes encodes back to exactly those bytes |
| TransferRecord.HeaderRoundTrip | wallpaper.cpp:87-90 | the 40-byte header of five native words decodes back to its fields, whatever payload follows |
| TransferRecord.EncodeShader | wallpaper.cpp:119-126 | the GLSL segment is 40 + file length bytes: a header with tag 0x420420 and zero fields, followed by the file bytes |
| TransferRecord.EncodePixels | wallpaper.cpp:133-145 | the pixel segment is 40 + len bytes; its tag is rgba8 iff the image has alpha, otherwise rgb8; width, height, rowstride and len are copied from the image; the pixels follow the header |
| TransferRecord.LoaderChild | wallpaper.cpp:108-147 | the child exits cleanly iff the file is non-empty and it is text or an image that loads; it then leaves at least a header, and a text file's bytes follow it |
| TransferRecord.PictureOf | wallpaper.cpp:169-182 | 3 channels for rgb8 and 4 for rgba8; has_alpha iff the tag is rgba8 |
| TransferRecord.Int32Of | wallpaper.cpp:169-170 | a size_t stored in an int field keeps its value below 2^31 and always lands in int's range |
| TransferRecord.Decode | wallpaper.cpp:161-237 | corrected load_renderable: nothing for a segment shorter than a header; for the glsl tag, always the shader whose body is everything after the header and whose flags are those of that body; for a pixel tag, the picture exactly when the bytes glTexSubImage2D reads (height - 1 strides of the row length, which is rowstride / channels or the width when that is 0, times channels rounded up to 4, plus one row of width pixels) fit after the header, and nothing otherwise; nothing for any other tag |
| TransferRecord.DecodeAsWritten | wallpaper.cpp:161-237 | load_renderable as written: any renderable it yields comes from a segment at least a header long; pixel rows that pass the end of the segment are an explicit read past it; a shader body length of 2^63 or more, from the wrapped size_t difference, is an explicit throw before any copy |
| TransferRecord.DecodeMatchesAsWritten | wallpaper.cpp:161-237 | the corrected decoder agrees with the code wherever the code renders; it yields nothing where the code reads past the segment; where the code throws, the segment is shorter than a header (and the corrected decoder yields nothing) or at least 2^63 bytes longer than one |
| TransferRecord.ShortShaderSegmentThrows | wallpaper.cpp:226 | a segment of 8 to 39 bytes that starts with the glsl tag makes the code ask std::string for 2^64 + size - 40 bytes, which throws before a byte is copied |
| TransferRecord.UncheckedPixelRowsReadPast | wallpaper.cpp:165-184 | the header of any non-empty rgb8 or rgba8 image with no pixels after it makes the upload read a positive number of bytes past the 40-byte segment |
| TransferRecord.ZeroRowstrideUsesWidth | wallpaper.cpp:175-184 | a rowstride smaller than one pixel gives GL_UNPACK_ROW_LENGTH 0, so GL steps rows by width * channels rounded up to 4 |
| TransferRecord.AlignedStrideKept | wallpaper.cpp:175-178 | for a GdkPixbuf's rowstride (a multiple of 4, at least one pixel), the row stride GL derives from rowstride / channels pixels is the rowstride itself |
| TransferRecord.ShaderRoundTrip | wallpaper.cpp:226 | GLSL round trip: decoding the child's shader segment gives the file bytes exactly, with their feature flags |
| TransferRecord.PixelRoundTrip | wallpaper.cpp:163-187 | pixel round trip: decoding the child's image segment gives its width, height, channel count, rowstride / channels row length and alpha flag |
| TransferRecord.LoaderChildDecodes | wallpaper.cpp:114-147 | whatever the child leaves decodes to the file's text when its first KiB is text, and to the image's picture otherwise |
| TransferRecord.StrideTimesHeightRejectsPadded | wallpaper.cpp:166 | a rowstride * height <= len check would reject a legitimate padded GdkPixbuf (1x2 RGB with 4-byte rows is 7 bytes) |
| Utf8.LeadingCharLength | wallpaper.cpp:115 | a well-formed leading character is at most 4 bytes and holds none of the bytes UTF-8 never uses (NUL, 0xC0, 0xC1, 0xF5 and up) |
| Utf8.Valid | wallpaper.cpp:115 | text g_utf8_validate accepts holds no NUL, 0xC0, 0xC1 or byte from 0xF5 up |
| Utf8.LooksLikeText | wallpaper.cpp:110-115 | a file of at most 1024 bytes looks like text iff it is valid UTF-8; a file that looks like text has no forbidden byte in its first 1024 |
| Utf8.EncodeThenDecode | wallpaper.cpp:115 | every non-NUL scalar value's encoding is a well-formed character that decodes back to it |
| Utf8.DecodeThenEncode | wallpaper.cpp:115 | every well-formed character is the encoding of the non-NUL scalar it decodes to |
| Utf8.ValidAfterValidPrefix | wallpaper.cpp:115 | after a valid prefix, the whole is valid iff the rest is |
| Utf8.TruncatedCharInvalid | wallpaper.cpp:115 | a multi-byte character cut short is not valid |
| Utf8.AsciiTextValid | wallpaper.cpp:115 | NUL-free ASCII is valid |
| Utf8.Snippet | wallpaper.cpp:110-111 | the sniffed snippet is the file's first min(length, 1024) bytes |
| Utf8.CharCutAtSniffLimit | wallpaper.cpp:110-115 | a multi-byte character that straddles byte 1024 makes an otherwise valid text file count as binary |
| ShaderFeatures.Contains | wallpaper.cpp:229 | find(...) != npos holds iff the name occurs somewhere in the body |
| ShaderFeatures.ContainsPrefix | wallpaper.cpp:229-230 | a body containing a name contains each of its prefixes |
| ShaderFeatures.FeaturesOf | wallpaper.cpp:229-233 | each uses_* flag holds iff the body contains its uniform's name, so uses_time_delta implies uses_time |
| ShaderFeatures.AnimatesWithoutDelta | wallpaper.cpp:362-364 | the animate test is unchanged by dropping its iTimeDelta disjunct |
| Loadables.KeyOf | wallpaper.cpp:246-247 | the cache key is the PATH_MAX+1 buffer: the resolved path followed by NULs exactly from its end on |
| Loadables.KeyOfInjective | wallpaper.cpp:246-255 | distinct resolved paths give distinct keys |
| Loadables.Loadable.constructor | wallpaper.cpp:295-300 | a new entry has one owner, no renderable and no signal, keeps the spawn's process handle and segment, and is loading iff it was spawned and registered |
| Loadables.Loadable.Retain | wallpaper.cpp:252 | handing out the cached entry adds one owner |
| Loadables.Loadable.LoaderDone | wallpaper.cpp:267-293 | loading ends in every case and the segment is closed; the result is 0 iff the reap gave exit code 0, the stat succeeded, the map succeeded and the unmap succeeded; only then is the renderable the decoded segment, shm_fd -1 and "loaded" emitted once; every failure emits nothing, and one before the decode leaves no renderable |
| Loadables.Loadable.Release | wallpaper.cpp:302-316 | dropping the last owner cancels (terminates and reaps) the child only if still loading, and always erases the entry's own key; otherwise only the owner count drops |
| Loadables.LoadableCache.constructor | wallpaper.cpp:242-243 | the cache starts empty |
| Loadables.LoadableCache.LoadFile | wallpaper.cpp:245-257 | an unresolvable path gives null and leaves the map unchanged; a key already present gives its entry with one more owner and no new key; otherwise exactly one key is added, mapped to the fresh entry returned; every stored entry stays live |
| Loadables.LoadSameFileTwice | wallpaper.cpp:251-256 | loading one file twice yields one shared entry with two owners and one new key |
| View.SizingName | wallpaper.cpp:38-43 | operator<< prints one of "fill", "fit", "stretch" |
| View.ParseSizing | wallpaper.cpp:373-380 | the mode is fit iff the string is "fit" and stretch iff it is "stretch" |
| View.SizingRoundTrip | wallpaper.cpp:373-380 | parsing a printed mode gives the mode back |
| View.UnknownSizingIsFill | wallpaper.cpp:378-379 | any other string selects fill |
| View.Step | wallpaper.cpp:484-522 | a non-left button changes nothing; a left press copies the pre pair into the click pair; release and touch-up reset the click pair; motion moves only the pre pair while unclicked and only the mouse pair otherwise; touch-down sets the click pair and nothing else; touch motion sets the mouse pair and nothing else |
| View.DragAndRelease | wallpaper.cpp:484-508 | move, press, drag: the click pair is the press point and the mouse pair the drag point; releasing afterwards clears only the click pair |
| View.PressAtOriginUnseen | wallpaper.cpp:485-501 | a press at pre (0,0) leaves the view unclicked, so later motion still moves the pre pair and damages nothing |
| View.PressOnEdgeNeverDamages | wallpaper.cpp:492-493 | after a press with pre x 0 and pre y nonzero, motion updates the mouse pair but never damages |
| View.WallpaperView.constructor | wallpaper.cpp:325-331 | a view starts with null from/to, a zeroed pointer state, zero counters, no animate/mouse, frameskip 1 and fill |
| View.WallpaperView.Handle | wallpaper.cpp:484-522 | each input event moves the pointer state by Step and damages the view iff the source does |
| View.WallpaperView.OnPointerMotion | wallpaper.cpp:484-495 | pointer motion is Step on Motion; it damages iff both click coordinates are nonzero |
| View.WallpaperView.OnPointerButton | wallpaper.cpp:496-508 | a button event is Step on Button; it damages on a left release |
| View.WallpaperView.OnTouchDown | wallpaper.cpp:510-513 | touch-down is Step on TouchDown |
| View.WallpaperView.OnTouchUp | wallpaper.cpp:514-518 | touch-up is Step on TouchUp and damages |
| View.WallpaperView.OnTouchMotion | wallpaper.cpp:519-522 | touch motion is Step on TouchMotion |
| View.Damages | wallpaper.cpp:484-522 | every damaging event other than motion leaves the click pair cleared |
| View.WallpaperView.AcceptsInput | wallpaper.cpp:480-482 | a view takes input only while mouse is set and only if its geometry has area |
| View.ShaderOf | wallpaper.cpp:451-455 | a loadable has shader flags iff it is non-null and holds a shader renderable |
| View.WallpaperView.OnSomethingLoaded | wallpaper.cpp:360-366 | animate iff a loaded to or from shader uses iTime, iTimeDelta, iDate or iFrame; mouse iff one uses iMouse; the view is damaged |
| View.WallpaperView.SetSizingMode | wallpaper.cpp:373-382 | the mode is the parsed string, the view is damaged, and the mode prints back as the string for any known name |
| View.CRem | wallpaper.cpp:340 | C++ %: a == (a / b) * b + a % b with / truncating toward zero; the magnitude is below the divisor's, the sign follows the dividend, and it equals the Euclidean remainder for a non-negative dividend |
| View.WallpaperView.TickAnimation | wallpaper.cpp:333-357 | from_frames and to_frames count only loaded sides, total_frames goes up by one, and the view is damaged iff the new total is divisible by frameskip |
| View.RedrawCountIsQuotient | wallpaper.cpp:340 | of the totals 1..n, exactly n / |frameskip| pass the frameskip test |
| View.TickMany | wallpaper.cpp:333-357 | n ticks from a zero total damage the view exactly n / |frameskip| times |
| View.SecondsOfDay | wallpaper.cpp:352-353 | tm_sec + tm_min * 60 + tm_hour * 3600 lies in 0..86400 |
| View.SecondsOfDayInverse | wallpaper.cpp:352-353 | for sec < 60 the seconds of day split back into hour, minute and second |
| View.FrameDate | wallpaper.cpp:352-353 | iDate is (tm_year + 1900, the 0-based month, the day, the seconds of day), and the seconds recover hour and minute |
| Workspaces.Extract | wallpaper.cpp:575 | one ss >> i either fails or consumes a non-empty prefix ending in a digit that the next character does not extend, giving a value in int range; it fails at once on a character that cannot start a number |
| Workspaces.SkipSeparator | wallpaper.cpp:580 | exactly one ',' or whitespace character is dropped, and nothing otherwise |
| Workspaces.Specificity | wallpaper.cpp:567 | specificity is 0 for "*" and 1 for any other string |
| Workspaces.WildcardMatchesAll | wallpaper.cpp:572 | "*" takes every index and has specificity 0 |
| Workspaces.ExtractRendered | wallpaper.cpp:575 | a decimal numeral not followed by a digit is read back as its value |
| Workspaces.ReadThenSeparator | wallpaper.cpp:575-580 | after a number, one separator is skipped and reading continues |
| Workspaces.ListRoundTrip | wallpaper.cpp:571-592 | a comma-separated list of ints reads back as exactly that list |
| Workspaces.ReadStopsAtComma | wallpaper.cpp:575 | a read at a ',' fails, ending the list |
| Workspaces.DoubleCommaStops | wallpaper.cpp:580 | "1,,2" reads only 1 |
| Workspaces.SpaceCommaStops | wallpaper.cpp:580 | "1 ,2" reads only 1 |
| Workspaces.CommaSpaceContinues | wallpaper.cpp:575-580 | "1, 2" reads 1 and 2: the skip drops the comma and >> skips the space |
| Workspaces.ReadAfterSpace | wallpaper.cpp:575 | a number after a whitespace character is read |
| Workspaces.ExtractPastSpace | wallpaper.cpp:575 | one leading whitespace character before a successful read shifts it by one character and leaves its value alone |
| Workspaces.IntegersReadInRange | wallpaper.cpp:575 | every integer read from a workspaces value lies in int's range |
| Workspaces.Matches | wallpaper.cpp:571-582 | a config other than the wildcard takes only indices in int's range |
| Workspaces.WallpaperConfig.constructor | wallpaper.cpp:530-533 | a config starts with its section name and no views |
| Workspaces.WallpaperConfig.ResetViews | wallpaper.cpp:569 | reset_views empties the view list |
| Workspaces.WallpaperConfig.MatchAddView | wallpaper.cpp:571-592 | the result is true iff the value is "*" or idx is among the integers read before the first failed read; a match appends the view exactly once, a non-match leaves the list unchanged |
| Plugin.LessIrreflexive | wallpaper.cpp:606 | std::string order is irreflexive |
| Plugin.LessTransitive | wallpaper.cpp:606 | std::string order is transitive |
| Plugin.LessTotal | wallpaper.cpp:606 | std::string order is total on distinct names |
| Plugin.Least | wallpaper.cpp:625 | every non-empty set of names has a first one, which the map walk visits next |
| Plugin.FirstColon | wallpaper.cpp:614 | find_first_of(":") finds the first colon, or none |
| Plugin.IsWallpaperSection | wallpaper.cpp:612-621 | a wallpaper section's name is "wallpaper" followed by ':' |
| Plugin.WallpaperSectionPrefix | wallpaper.cpp:612-621 | a section is a wallpaper section iff its name starts with "wallpaper:" |
| Plugin.WallpaperSections | wallpaper.cpp:612-624 | the wallpaper sections of a config file are exactly its sections whose type is "wallpaper" |
| Plugin.ArrangedDistinct | wallpaper.cpp:625-635 | an arranged confs_order holds each config once |
| Plugin.LowerBound | wallpaper.cpp:630 | lower_bound with cmp_specificity: every config before the position is strictly more specific, and the one at it is not |
| Plugin.InsertKeepsArranged | wallpaper.cpp:629-631 | inserting the next name in map order at its lower bound keeps specific configs first and each specificity class in reverse name order |
| Plugin.TailNotMoreSpecific | wallpaper.cpp:630 | no config after the lower bound is more specific |
| Plugin.FirstMatch | wallpaper.cpp:636-644 | the chosen config takes the index and no earlier config does; none is chosen only if no config takes it |
| Plugin.AssignedExtend | wallpaper.cpp:637-644 | offering one more view extends exactly its first match's list |
| Plugin.ViewPlacement | wallpaper.cpp:636-644 | with distinct views, a view is in a config's list iff that config is the first one matching its index |
| Plugin.WildcardIsFallback | wallpaper.cpp:595-600 | a wildcard config receives an index only when every specific config is earlier and none takes it |
| Plugin.WildcardPlacesEveryIndex | wallpaper.cpp:636-644 | once any wildcard config exists, every index is given to some config |
| Plugin.GridIndexBijective | wallpaper.cpp:677 | x + width * y numbers the grid cells 0 .. width * height - 1, with the cell recovered by % and / |
| Plugin.GridIndexInjective | wallpaper.cpp:677 | distinct cells get distinct views |
| Plugin.ShiftMatchesLayout | wallpaper.cpp:654-659 | shifting a layout for one current workspace by the workspace change gives the layout for the other |
| Plugin.CurrentWorkspaceAtOrigin | wallpaper.cpp:677-678 | the current workspace's view covers the output at (0,0) |
| Plugin.WallpaperPlugin.LoadConfig | wallpaper.cpp:609-645 | confs holds exactly the wallpaper sections; surviving configs are kept and new ones are fresh; confs_order is a permutation of confs with every specific config before every wildcard one; each config's views are exactly those whose index it is the first to match |
| Plugin.WallpaperPlugin.AddSections | wallpaper.cpp:612-624 | try_emplace adds a fresh empty config for each new wallpaper section and keeps the existing ones |
| Plugin.WallpaperPlugin.AddSection | wallpaper.cpp:623 | one try_emplace: a new wallpaper section gets a fresh config with no views and nothing else changes; otherwise confs is unchanged |
| Plugin.WallpaperPlugin.ArrangeConfs | wallpaper.cpp:625-635 | the map walk erases configs whose section vanished, inserts each survivor into confs_order by specificity and empties its views |
| Plugin.WallpaperPlugin.PlaceNext | wallpaper.cpp:625-635 | one iteration of the walk, at the next name in map order, keeps the walk's invariant |
| Plugin.WallpaperPlugin.PlaceConf | wallpaper.cpp:626-633 | a vanished section's config is erased; a surviving one is inserted once into confs_order, which stays arranged, and its views are reset |
| Plugin.WallpaperPlugin.AssignViews | wallpaper.cpp:636-644 | after the pass, each config's views are exactly those whose index it is the first to match |
| Plugin.WallpaperPlugin.OfferView | wallpaper.cpp:638-642 | the view goes to the first matching config in confs_order, and every other list is unchanged |
| Plugin.WallpaperPlugin.OnOutputConfigurationChanged | wallpaper.cpp:663-682 | accepts an empty view list (as left by pre-remove's clear()) or one matching the grid; nothing happens when no field changed, the source changed or there are no views; otherwise every cell's view gets the layout for the current workspace and is damaged once |
| Plugin.WallpaperPlugin.LayOut | wallpaper.cpp:675-681 | the view of cell (i % width, i / width) gets that cell's layout, and every view is damaged exactly once |
| Plugin.WallpaperPlugin.LayOutColumn | wallpaper.cpp:676-680 | one pass of the inner loop lays out and damages exactly the views of column x |
| Plugin.WallpaperPlugin.ResetAllViews | wallpaper.cpp:687-689 | every config's view list is emptied |
| Plugin.WallpaperPlugin.ResizeViews | wallpaper.cpp:692-700 | views past the new count lose from and to; the first views are the same objects with the same from and to; fresh views with no loadables and no damage fill the list up to the new count |
| Plugin.WallpaperPlugin.OnWorkspaceGridChanged | wallpaper.cpp:684-711 | views past the new cell count lose from and to; the first views are kept with their from and to and are damaged once more; fresh views are added up to width * height and are damaged once; every cell is laid out; only the views' from, to, geometry and damage count may change; the config is reloaded as in load_config |
| Plugin.WallpaperPlugin.OnWorkspaceChanged | wallpaper.cpp:649-661 | every view moves by (old - new workspace) * screen size |
| Plugin.WallpaperPlugin.TickAnimations | wallpaper.cpp:713-730 | every animating view ticks once (total_frames + 1, from_frames and to_frames + 1 for each loaded side, a damage iff the new total passes the frameskip test) and every other view is untouched; a redraw is scheduled iff some animating view with frameskip != 1 is visible on the current workspace |
| Plugin.TickIfAnimating | wallpaper.cpp:717-722 | one turn of the hook's loop: the view ticks iff it animates, and asks for a redraw iff it animates, its frameskip is not 1 and it is visible |

## Left out

- OpenGL: texture upload, shader compilation and rendering (`render_renderable`, `simple_render`, `render_begin`/`render_end`) are GPU calls; only the decoded descriptor is kept.
- `apply_mode` works on `double` ratios and is not modelled.
- `pid_fd_fork.h` is not part of this model. The process handle is an abstract pair whose reap sets both descriptors to -1, and the reap's outcome is a parameter of `LoaderDone` and `Release`.
- The child side of `start_file_loader` is modelled only by the bytes it leaves: `LoaderChild` takes the file contents and the decoded image as parameters. `memfd_create`, fork, `open`/`read`, `mmap`, GdkPixbuf decoding and `_Exit` are out of scope.
- Loadables.Loadable.constructor: a spawn failure is modelled as an entry that is never registered and is not loading. The source instead returns an uninitialised handle and registers it with the event loop (wallpaper.cpp:93-102).
- `realpath` is a `Resolution` parameter of `LoadFile`. The event loop is a `registered` flag. `wl_event_source_remove` and the signal subscriber list are left out; "loaded" is a signal counter.
- `close` of `shm_fd` is modelled only as an open flag, `shmOpen`. It shows that an entry cancelled while loading is torn down with its segment still open, since the destructor never closes it.
- Byte order is a parameter. The header is written and read in the same native order, so both orders are proved.
- Plugin `init`/`fini`/`clear`, `new_view`, view `close()`, `set_output`, layer placement and `schedule_redraw` are compositor calls. The grid handler's `close()` of dropped views is not modelled, and their loadables are not released through the cache.
- `set_from`/`set_to`/`set_color` and the option callbacks forward the config's loadable, colour, mode and frameskip to the view. MatchAddView: records only the view list, not these forwarded settings.
- Config options are read from a `ConfigFile` map from section name to workspaces value, at the moment of use. Options other than `workspaces` (path, outputs, colour, sizing mode, frameskip) are not part of it.
- The clock reads and `localtime_r` in `tick_animation` are not modelled: TickAnimation updates only the frame counters and the damage count. `last_frame_delta` and `current_frame_date` are floating point; `FrameDate` models only the integer iDate arithmetic from a given `struct tm`.
- View.WallpaperView.TickAnimation: requires frameskip != 0. The config's frameskip reaches `total_frames % frameskip` unchecked (wallpaper.cpp:340, 560-563, 588), so a frameskip of 0 in the config is a division by zero, undefined behaviour that the model does not describe.
- Plugin.WallpaperPlugin.TickAnimations: requires frameskip != 0 of the animating views only, for the same reason; the hook never ticks the others.
- TickAnimation: `total_frames` is `int64_t` and the model's counter is unbounded; wrap-around after 2^63 frames is not modelled.
- Clocks.Now: `tv_sec * 10^9` overflowing `int64` nanoseconds (beyond about the year 2262) is not modelled.
- Workspaces.Extract: the locale is the classic "C" one, so whitespace is ' ' and 9..13, as `std::isspace` with the classic locale gives.
- Plugin.Less: `std::string` comparison of section names is modelled as code-point order of `char`s.
- Loadables.Loadable.LoaderDone: stores what the corrected decoder `Decode` gives, while `loader_done` calls `load_renderable` as written (wallpaper.cpp:285). On every segment a loader child can leave the two agree (LoaderChildDecodes with DecodeMatchesAsWritten); they differ only on segments no child writes.
- TransferRecord.DecodeAsWritten: a shader body below 2^63 bytes is taken to be allocated; a `std::bad_alloc` for a smaller request that memory cannot satisfy is not modelled.
- TransferRecord.Decode: the GL calls are taken to succeed. GL's errors for sizes above `GL_MAX_TEXTURE_SIZE` are not modelled; a row length that `glPixelStorei` refuses (negative) leaves 0 in place, which the model treats as the width.
- TransferRecord.WellFormedPixbuf: a GdkPixbuf's rowstride is taken to be a multiple of 4, as `gdk_pixbuf_new` allocates it; PixelRoundTrip relies on it.
- The loader child's side effects sit inside `assert(...)` (wallpaper.cpp:118, 120, 128, 134, 146). The model assumes assertions are compiled in; built with NDEBUG, the file contents are never read, the segment never sized and the unmap never done.
- Loadables.KeyOf: assumes realpath(3) leaves the rest of the PATH_MAX+1 buffer zeroed after the terminator, as the buffer is zero-initialised (wallpaper.cpp:246-247). POSIX does not promise this. An in-place implementation (glibc before 2.33, a userland fallback) can leave bytes of removed `..` components there, so two spellings of one file could get distinct keys and be loaded twice. The model does not capture that.
- Loadables.PathMax: is FreeBSD's PATH_MAX of 1024; on Linux it is 4096. Only the key length depends on it.
- Plugin.WallpaperPlugin.OnWorkspaceGridChanged: requires both grid sizes to be positive and the view list to match the old grid. Matching is the plugin's own invariant, not a promise of the workspace manager: `init` sizes the list to the grid (wallpaper.cpp:755) and this handler resizes it (wallpaper.cpp:697), but pre-remove's `clear()` empties it (wallpaper.cpp:779-784) while the handler stays connected. A grid change after that would index past the empty list at wallpaper.cpp:693-695 when views are dropped; the model does not cover a grid change on an emptied list.

## Findings

| source | as written | input that shows it | evidently intended | confidence | as-written member | corrected member |
|---|---|---|---|---|---|---|
| wallpaper.cpp:226 | the header is read and `len - sizeof(shm_header)` is computed without checking that the segment holds a header; for a segment shorter than 40 bytes the size_t difference wraps to nearly 2^64, and `std::string`'s constructor throws (`length_error` or `bad_alloc`) before copying a byte, out of `loader_done` | a 16-byte segment starting with the glsl tag: the body length is 2^64 - 24. No loader child writes such a segment, since it always sizes the segment to 40 + len (wallpaper.cpp:119-120, 133-134) | a segment shorter than the header yields no renderable | low, not executed | TransferRecord.ShortShaderSegmentThrows | TransferRecord.Decode |
| wallpaper.cpp:166 | pixel rows are uploaded without checking them against the segment (the TODO says so) | a 2x2 rgb8 header with rowstride 8 and no pixels: the upload reads 14 bytes past the segment. With rowstride 0 and a 6-byte payload GL also reads 14 bytes, because a row length of 0 means the width | rows that do not fit yield no renderable. The bound is what glTexSubImage2D reads: height - 1 strides of the row length (rowstride / channels, or the width when that is 0) times channels, rounded up to 4, plus width * channels. It is not rowstride * height | low, not executed | TransferRecord.UncheckedPixelRowsReadPast | TransferRecord.Decode |
