# SoniEffect video-to-audio converter, modelled in Dafny

The converter takes an uploaded video and turns it into an audio file.

1. `save_uploaded_file` sanitises the uploaded file's name. It writes the upload under that name in the video directory.
2. `convert_video_to_audio` runs several steps:
   - it checks that the resolved input exists and that its string starts with the resolved video directory's string;
   - it derives the output name `SoniEffect_Converted_<stem>.<format>` in the audio directory;
   - it builds the ffmpeg argument list: cover art when the logo exists, a codec per format, and fixed metadata with a random title number;
   - it reads ffmpeg's stderr line by line and reports each progress percentage to an optional callback;
   - it removes the input if the input is still there.
3. `delete_file` deletes a produced audio file, named by its base name. It deletes only when the file exists and its resolved path's string starts with the resolved audio directory's string. It reports every failure as `False`.

The model has eight modules, one file each:

- `Sequences` (`seqs.dfy`) holds one generic fact about concatenation, shared by the other modules.
- `Paths` (`paths.dfy`) covers the POSIX `pathlib` string handling the code relies on:
  - the root and components of a path;
  - `/` joins;
  - `.name`, `.stem`, `.suffix`, `.parent` and `is_relative_to`.
- `Sanitize` (`sanitize.dfy`) covers the two `re.sub` whitelists and the output file name.
- `Patterns` (`patterns.dfy`) holds hand-written recognisers for the two progress regexes. They have `re.search` semantics (leftmost match), and the value `h * 3600 + m * 60 + s` is an exact real.
- `Progress` (`progress.dfy`) covers the stderr loop:
  - `ParseProgress` is a `while` loop, with one `ReadLine` call per pass;
  - it is proved equal to a line-by-line function (`Emitted`);
  - that function is proved equal to a phase-by-phase reference (`Reported`): seek a positive duration, then report every later `time=`.
- `FfmpegCommand` (`command.dfy`) covers the argument list:
  - `BuildCommand` builds it by successive `extend` calls, as the code does;
  - `Command` is the same list as a function;
  - `Parse` reads it back the way ffmpeg does: `-y` and `-hide_banner` are switches, every other `-…` token takes one value, and anything else is an output file;
  - lemmas state which inputs, output, maps, codec settings and metadata ffmpeg sees.
- `Storage` (`storage.dfy`) is a `FileSystem` class:
  - a map from resolved path to file contents or directory;
  - `resolve` (`Path.resolve()`) as a fixed function;
  - `WriteFile` for `open(…, "wb")` and `Remove` for `os.remove` and `unlink`.
- `Converter` (`converter.dfy`) holds the three entry points as methods on a `FileSystem`, with lemmas tying them together. One example: a staged upload passes the conversion's input check.

## Model

| member | source | states |
|---|---|---|
| Sanitize.Sanitize | lib/tools/video_to_audio_converter.py:15 | The result has the input's length. Every character is in the whitelist. Characters already in it stay in place, and every other character becomes `_`. |
| Sanitize.SanitizeIdempotent | lib/tools/video_to_audio_converter.py:15 | Sanitising an already sanitised name changes nothing. |
| Sanitize.SanitizeFixesExactlyAllowed | lib/tools/video_to_audio_converter.py:15 | A name is left unchanged if and only if every character is in the whitelist. |
| Sanitize.SanitizeAppend | lib/tools/video_to_audio_converter.py:15 | Sanitising works character by character: it distributes over concatenation. |
| Sanitize.UploadNameHasNoSlash | lib/tools/video_to_audio_converter.py:15-16 | A staged name never contains a path separator. It may still be `.` or `..`, which the sanitiser keeps. |
| Sanitize.StemHasNoDot | lib/tools/video_to_audio_converter.py:32 | The output stem contains neither `.` nor `/`. |
| Sanitize.StemCleanIsUploadClean | lib/tools/video_to_audio_converter.py:32 | The stem whitelist is narrower than the upload whitelist: a stem-clean name passes the upload sanitiser unchanged. |
| Sanitize.OutputFilename | lib/tools/video_to_audio_converter.py:32-33 | The output name is `SoniEffect_Converted_`, then one character per character of the stem, each in the stem whitelist (so no `.` or `/`), then `.`, then the format unchanged. Its length is 22 plus the lengths of the stem and the format. |
| Sanitize.OutputFilenameSplits | lib/tools/video_to_audio_converter.py:32-33 | For a non-empty format without `.` or `/`, the output name is one path component. Its `.stem` is `SoniEffect_Converted_` plus the sanitised stem, and its `.suffix` is `.` plus the format. |
| Sanitize.OutputFilenameIsComponent | lib/tools/video_to_audio_converter.py:32-34 | For a format without `/`, the output name is one path component and is never `..`. |
| Paths.StemSuffixSplit | lib/tools/video_to_audio_converter.py:32 | `.stem + .suffix` gives back the name. The suffix is empty, or a dot followed by no further dot. |
| Paths.Name | lib/tools/video_to_audio_converter.py:110 | `.name` is empty or a single proper component (no `/`, not `.`). |
| Paths.Stem | lib/tools/video_to_audio_converter.py:32 | `.stem` is a prefix of the name. It is shorter than the name exactly when the name has a suffix. |
| Paths.Suffix | lib/tools/video_to_audio_converter.py:32 | `.suffix` is empty exactly when the name has none. Otherwise it is the tail of the name from its last dot: a dot, then at least one character, none of them a dot. |
| Paths.Join | lib/tools/video_to_audio_converter.py:16 | `str(dir / name)` is always a normal path: it prints back the root and components it parses to. |
| Paths.Parent | lib/tools/video_to_audio_converter.py:16 | `.parent` is a normal path with the same root. Its components are those of the path without the last one. |
| Paths.SplitAtDot | lib/tools/video_to_audio_converter.py:33 | A name built as a non-empty base, a dot and a non-empty extension, with no dots or slashes in either part, splits back into that base and `.` plus the extension. (With an empty extension, `base.` has no suffix.) |
| Paths.RenderParses | lib/tools/video_to_audio_converter.py:16 | Printing a root with components and parsing the result gives back the same root and components, and the printed path is normal. |
| Paths.JoinComponents | lib/tools/video_to_audio_converter.py:34 | `dir / name` for a relative name keeps the directory's root and appends the name's components. So the result lies lexically in `dir`: `..` is kept as a component, as `pathlib` keeps it. |
| Paths.JoinName | lib/tools/video_to_audio_converter.py:34 | Joining a single component onto a directory gives a path whose `.name` is that component. |
| Paths.NameAfterDirectories | lib/tools/video_to_audio_converter.py:110 | `.name` of any path ending in `/c` is `c`, whatever directories precede it. |
| Paths.ParentOfJoin | lib/tools/video_to_audio_converter.py:16 | The parent of a normal directory joined with one component is that directory. |
| Paths.RelativeIsPrefix | lib/tools/video_to_audio_converter.py:28 | For normal absolute paths, lying in a directory implies that the path's string starts with the directory's string. |
| Paths.ComponentsAppend | lib/tools/video_to_audio_converter.py:110 | The components of `a/b` are those of `a` followed by those of `b`. |
| Paths.IsRelativeTo | lib/tools/video_to_audio_converter.py:28 | `is_relative_to`, the component-wise containment the corrected check uses. Every path lies in itself, and a path in a directory has at least as many components as the directory. |
| Patterns.SearchFindsClock | lib/tools/video_to_audio_converter.py:81-82 | A line made of text without the keyword's first letter, then the keyword (with one space after `Duration:`), a clock `h:m:s.f`, and text not starting with a digit, is matched with exactly that clock's groups. |
| Patterns.Search | lib/tools/video_to_audio_converter.py:89 | `pattern.search(line)`: the groups of the match at the first offset where the pattern matches, or none. Its properties are the lemmas `SearchText`, `SearchIsLeftmost`, `SearchFindsClock`, `SearchNeedsKeyword` and `SearchValid`. |
| Patterns.SearchText | lib/tools/video_to_audio_converter.py:89 | A clock found in a line is the pattern matched at some offset, and no earlier offset matches. |
| Patterns.SearchIsLeftmost | lib/tools/video_to_audio_converter.py:89 | `search` returns the match at the first offset where the pattern matches. |
| Patterns.SearchNeedsKeyword | lib/tools/video_to_audio_converter.py:89 | A line in which the keyword occurs nowhere has no match. |
| Patterns.SearchValid | lib/tools/video_to_audio_converter.py:81-82 | Every match captures four non-empty digit strings. |
| Patterns.ClockPrefixOf | lib/tools/video_to_audio_converter.py:81-82 | The groups `(\d+):(\d+):(\d+\.\d+)` read back the clock that printed them, when the printed clock is followed by the end of the text or a non-digit. |
| Patterns.FieldsText | lib/tools/video_to_audio_converter.py:81-82 | The digit groups read are a prefix of the text, written with their separators. The text after them is empty or starts with a non-digit, so each group is the longest digit run (`\d+` is greedy). |
| Patterns.ClockPrefixText | lib/tools/video_to_audio_converter.py:81-82 | A recognised clock's own text `h:m:s.f` starts the input. The input ends there, or a non-digit follows. |
| Patterns.MatchPrefixText | lib/tools/video_to_audio_converter.py:81-82 | A match at the front of a line is the keyword, then one whitespace character after `Duration:`, then the clock's own text, then the end or a non-digit. |
| Patterns.ClockPrefix | lib/tools/video_to_audio_converter.py:81-82 | `(\d+):(\d+):(\d+\.\d+)` matched at the front of a string. Whatever it captures is four non-empty strings of digits. `ClockPrefixOf` and `ClockPrefixText` relate it to the text in both directions. |
| Patterns.MatchPrefix | lib/tools/video_to_audio_converter.py:81-82 | One of the two patterns matched at the front of a string: a match needs the keyword (`Duration:` or `time=`) to start the string. `MatchPrefixText` states the rest of the match's shape. |
| Patterns.Clock.Seconds | lib/tools/video_to_audio_converter.py:91-92 | The captured clock as seconds, exactly, as lines 91-92 and 97-98 compute it: `h * 3600 + m * 60 + s` with the fractional digits below one second, so the value lies between the whole seconds and the whole seconds plus one. |
| Progress.Percent | lib/tools/video_to_audio_converter.py:99 | The result is between 0 and 100. It is 100 exactly when the time has reached the duration; otherwise it is the floor of `curr * 100 / duration`. |
| Progress.Step | lib/tools/video_to_audio_converter.py:88-99 | A positive duration never changes, and the duration never becomes negative. A percentage in 0..100 is reported only once the duration is positive and a callback is given. |
| Progress.ReadLine | lib/tools/video_to_audio_converter.py:88-99 | The loop body on one line gives the new duration and the report that `Step` gives for the scanned line. |
| Progress.ParseProgress | lib/tools/video_to_audio_converter.py:80-99 | The loop reports exactly `Emitted(lines)`, in order. Reading stops at the first empty line. |
| Progress.Emitted | lib/tools/video_to_audio_converter.py:84-99 | The reports of the loop, stated line by line: each line is scanned and fed to `Step` with the duration the previous lines left. `EmittedIsReported` states what it equals. |
| Progress.EmittedUntilEof | lib/tools/video_to_audio_converter.py:85-86 | Nothing after the first empty line (end of stream) affects what is reported. |
| Progress.SeekingPhase | lib/tools/video_to_audio_converter.py:88-92 | Until a positive duration appears nothing is reported. The line that sets the duration is not searched for `time=`. |
| Progress.TrackingPhase | lib/tools/video_to_audio_converter.py:93-99 | Once the duration is positive it stays fixed. With a callback, every `time=` line is reported as its percentage; without one, nothing is reported. |
| Progress.EmittedIsReported | lib/tools/video_to_audio_converter.py:84-99 | The line-by-line loop equals the phase-by-phase reference: the percentages of the `time=` lines after the first line announcing a positive duration, and nothing when there is no callback or no such line. |
| Progress.Reported | lib/tools/video_to_audio_converter.py:84-99 | The independent reference for the loop: up to the end of the stream, find the first line with a positive duration, then the percentages of the `time=` lines after it. It is empty without a callback or without such a line. |
| Progress.NoCallbackNoEvents | lib/tools/video_to_audio_converter.py:94 | Without a callback no percentage is ever reported. |
| Progress.EventsInRange | lib/tools/video_to_audio_converter.py:99 | Every reported value lies in 0..100. |
| Progress.PercentMonotone | lib/tools/video_to_audio_converter.py:99 | A later time never gives a smaller percentage. |
| Progress.PercentsNonDecreasing | lib/tools/video_to_audio_converter.py:99 | Ascending times give non-decreasing percentages. |
| Progress.FullAtDuration | lib/tools/video_to_audio_converter.py:99 | A time is reported as 100 exactly when it is at or past the duration. |
| Progress.ScanFindsDuration | lib/tools/video_to_audio_converter.py:89-92 | A line made of text without the letter `D`, then `Duration: h:m:s.f`, then the end of the line or a non-digit, yields `h*3600 + m*60 + s.f` seconds as its duration. The conditions make this the leftmost match and make `f` the whole fraction. |
| Progress.ScanFindsTime | lib/tools/video_to_audio_converter.py:95-98 | A line made of text without the letter `t`, then `time=h:m:s.f`, then the end of the line or a non-digit, yields `h*3600 + m*60 + s.f` seconds as its time. The conditions make this the leftmost match and make `f` the whole fraction. |
| Progress.ScanLine | lib/tools/video_to_audio_converter.py:85-98 | One line read: it is end of stream exactly when it is empty, and the duration and time found in it by the two searches are never negative. `ScanFindsDuration` and `ScanFindsTime` state what they are for a well-formed line. |
| Progress.EmittedScans | lib/tools/video_to_audio_converter.py:84-99 | The reports from a given duration onwards, line by line: at most one report per line. `Emitted` is this from duration 0. |
| FfmpegCommand.DecimalString | lib/tools/video_to_audio_converter.py:67 | `str(n)` is a non-empty digit string with no leading zero that reads back as `n`. |
| FfmpegCommand.Command | lib/tools/video_to_audio_converter.py:38-73 | The argument list as one value: `ffmpeg` followed by the segments in the order the code appends them. `CommandLayout`, `CommandParses` and the `Command…` lemmas state its content. |
| FfmpegCommand.TitleNumber | lib/tools/video_to_audio_converter.py:67 | For `rand_3` in 100..999 the title is `title=SoniEffect Audio #` followed by exactly three digits that read back as `rand_3`. |
| FfmpegCommand.Title | lib/tools/video_to_audio_converter.py:67 | `f"title=SoniEffect Audio #{rand_3}"`. `TitleNumber` states its text: the fixed prefix, then exactly three digits reading back as `rand_3`. |
| FfmpegCommand.BuildCommand | lib/tools/video_to_audio_converter.py:38-73 | The list grown by the literal and the successive `extend` calls equals `Command(...)`. |
| FfmpegCommand.CommandLayout | lib/tools/video_to_audio_converter.py:38-73 | The list starts with `ffmpeg -y -hide_banner -loglevel info -hwaccel auto -thread_queue_size 4096 -i <input>`. When there is a logo, `-i <logo>` comes next, before `-map 0:a:0`; otherwise `-map 0:a:0` comes next. The output path is the last element. |
| FfmpegCommand.CommandParses | lib/tools/video_to_audio_converter.py:38-73 | When the output path does not start with `-`, ffmpeg's reading of the list is exactly the segment-by-segment plan. |
| FfmpegCommand.CommandInputs | lib/tools/video_to_audio_converter.py:42-46 | The inputs ffmpeg opens are the video, followed by the logo exactly when it exists. |
| FfmpegCommand.CommandOutput | lib/tools/video_to_audio_converter.py:72 | ffmpeg writes exactly one file, the output path, which is the last argument. |
| FfmpegCommand.CommandStreamMaps | lib/tools/video_to_audio_converter.py:45-51 | The maps are `0:a:0`, followed by `1:v:0` exactly when there is a logo. The attached-picture disposition is present exactly when there is a logo. |
| FfmpegCommand.PlanDisposition | lib/tools/video_to_audio_converter.py:50-51 | Only the cover-art segment carries `-disposition:v:0 attached_pic`. |
| FfmpegCommand.CommandCodec | lib/tools/video_to_audio_converter.py:53-64 | `-c:a` is set once, to the codec chosen for the format: libmp3lame, aac, flac, or pcm_s16le otherwise. `-b:a` is the requested bitrate for mp3 and m4a, and absent for every other format. |
| FfmpegCommand.CommandCodecExtras | lib/tools/video_to_audio_converter.py:53-62 | `-compression_level 0`, `-id3v2_version 3` and the two `-metadata:s:v` cover tags appear for mp3 only. `-cutoff 20000` appears for m4a only. |
| FfmpegCommand.CommandMetadata | lib/tools/video_to_audio_converter.py:66-69 | The `-metadata` values are the random title, `artist=SoniEffect` and `album=SoniEffect Conversions`, in that order. The overwrite switch `-y` is present. |
| Storage.FileSystem.WriteFile | lib/tools/video_to_audio_converter.py:17-18 | The write succeeds exactly when the parent of the resolved path is a directory and the path is not a directory. On success the file holds exactly the data; nothing else changes. |
| Storage.FileSystem.Remove | lib/tools/video_to_audio_converter.py:104 | Removal succeeds exactly when the resolved path is a file. Exactly that entry goes; on failure nothing changes. |
| Storage.FileSystem.Exists | lib/tools/video_to_audio_converter.py:28 | `Path.exists()`, used at lines 28, 36, 103 and 112: true exactly when the resolved path holds a file or a directory. |
| Converter.SaveUploadedFile | lib/tools/video_to_audio_converter.py:14-19 | Succeeds exactly when the staged path is writable, and returns `VIDEO_DIR / sanitised name` holding the upload's bytes. Otherwise it fails with an OS error and leaves storage unchanged. |
| Converter.StartsWithDir | lib/tools/video_to_audio_converter.py:28 | The check as written: the path's string starts with the directory's string. |
| Converter.WithinDir | lib/tools/video_to_audio_converter.py:28 | The corrected check, under the name the converter uses: `Paths.IsRelativeTo` (`is_relative_to`), same root and the directory's components starting the path's. |
| Converter.InDir | lib/tools/video_to_audio_converter.py:28 | Applies the chosen check: `StringPrefix` is the code's, `ComponentWise` the corrected one. |
| Converter.InputAdmitted | lib/tools/video_to_audio_converter.py:27-28 | The input is admitted when its resolved path exists and passes the chosen check against the resolved video directory. |
| Converter.OutputPath | lib/tools/video_to_audio_converter.py:31-34 | `AUDIO_DIR / "SoniEffect_Converted_<stem>.<format>"`, with the input's `.stem` sanitised. `OutputPathInAudioDir` states where it lies and what it is called. |
| Converter.StagedPathInVideoDir | lib/tools/video_to_audio_converter.py:15-16 | The staged path lies lexically in the video directory (`..` is not collapsed). It adds at most the sanitised name as one component. For a proper name, that name is its `.name`, and a normal video directory is its parent. |
| Converter.StagedUploadIsAdmitted | lib/tools/video_to_audio_converter.py:16-28 | A staged upload passes the conversion's input check, provided resolution only resolves the video directory. The corrected check always admits it. The check as written admits it when the resolved video directory is a normal absolute path. |
| Converter.ConvertVideoToAudio | lib/tools/video_to_audio_converter.py:21-106 | With the check as written (`StringPrefix`), this is the code. A missing input, or one that fails the check against the video directory, fails with `InvalidInputPath`, builds no command and leaves storage unchanged. Otherwise it returns `OutputPath`, `Command` and `Emitted`, with the logo flag taken from storage. The input is then removed if it is a file; if it is a directory, the conversion fails with an OS error. |
| Converter.Transcode | lib/tools/video_to_audio_converter.py:75-101 | The progress reported is `Emitted(stderr)`. Storage gains ffmpeg's output, if ffmpeg produced one, at the resolved output path. |
| Converter.OutputPathInAudioDir | lib/tools/video_to_audio_converter.py:31-34 | The output path lies lexically in the audio directory, whatever the format (`..` is not collapsed). A format without `/` adds exactly one component, and that component is not `..`. For a plain format its `.name` is the documented output name, with the sanitised input stem and the format as suffix. |
| Converter.OutputPathIsNotOption | lib/tools/video_to_audio_converter.py:72 | With an absolute audio directory the output path never starts with `-`, so ffmpeg cannot read it as an option. |
| Converter.ConversionCommandReadsAndWrites | lib/tools/video_to_audio_converter.py:38-73 | For an absolute audio directory, the command makes ffmpeg read the input (and the logo when it exists). It writes only the returned output path, which lies lexically in the audio directory. |
| Converter.DeleteTarget | lib/tools/video_to_audio_converter.py:110-111 | `(AUDIO_DIR / Path(filename).name).resolve()`. `DeleteUsesBasename` states what it is before resolution. |
| Converter.DeleteFile | lib/tools/video_to_audio_converter.py:108-117 | With the check as written (`StringPrefix`), this is the code. Returns true exactly when the resolved target is an existing file that passes the check against the resolved audio directory, and then removes exactly that entry. Otherwise it returns false and leaves storage unchanged; it never raises. |
| Converter.DeleteUsesBasename | lib/tools/video_to_audio_converter.py:110-111 | Before resolution the target lies in the audio directory and adds only the argument's last component. |
| Converter.TraversalNamesLastComponent | lib/tools/video_to_audio_converter.py:110 | `../../etc/passwd` is reduced to `passwd`. |
| Converter.SiblingPassesStartsWith | lib/tools/video_to_audio_converter.py:28 | The check as written admits a path in a sibling directory whose name extends the directory's name. The component-wise check rejects it. |
| Converter.SiblingExample | lib/tools/video_to_audio_converter.py:28 | `/srv/videos2/a.mov` passes `startswith("/srv/videos")` but does not lie in `/srv/videos`. |
| Converter.AudioSiblingExample | lib/tools/video_to_audio_converter.py:112 | `/srv/audio2/x.mp3` passes `startswith("/srv/audio")` but does not lie in `/srv/audio`. |
| Converter.WithinDirIsStricter | lib/tools/video_to_audio_converter.py:28 | On normal absolute paths the component-wise check admits only what the string check admits. It admits every name joined onto the directory. |

## Left out

- Process handling (`subprocess.Popen`, `process.wait()`) is not modelled. ffmpeg's stderr is a parameter (a list of lines, with the empty string as end of stream), and so is the file ffmpeg leaves at the output path (`produced`).
- The exit status: the code never looks at ffmpeg's exit status. The model follows the code, so a failing ffmpeg still returns the output path and removes the input.
- The streaming copy of `shutil.copyfileobj` is not modelled. The upload's body is one byte sequence, and a write either happens in full or not at all: no partial files and no disk-full errors.
- Resolution is not modelled:
  - `Path.resolve()` is a fixed function `resolve` of the `FileSystem`. A symbolic link appears only through what it resolves to; creating links and link loops are not modelled;
  - `exists()` is membership of the resolved path in the store;
  - `LOGO_PATH` is taken as already resolved.
- Environment errors are not modelled. Permission errors and other OS failures beyond "parent is not a directory" (write) and "not a file" (remove) are left out, as are races between the existence check and the removal.
- `random.randint(100, 999)` is the parameter `rand3`, required to lie in 100..999.
- Converter.ConvertVideoToAudio: the default arguments `out_format="mp3"` and `bitrate="192k"` are not modelled; the caller always passes the format and the bitrate.
- Progress.Percent: times and percentages are exact reals, not IEEE doubles. Rounding of `float()` and of the division is not modelled.
- Patterns.IsDigit: `\d` and `float()` are restricted to ASCII digits. Python also accepts other Unicode decimal digits in a `str` pattern.
- The progress callback is a flag saying whether one was given. Exceptions it raises, and its return value, are not modelled.
- An upload whose `filename` is `None` (a `TypeError` in the code) is not modelled; filenames are strings.
- FfmpegCommand.Parse: ffmpeg's option table is reduced to the options this command uses. `-y` and `-hide_banner` take no value; every other `-…` token takes exactly one.
- The configuration modules (`core`, `dir_config`) are not part of this model. The directories and the logo path come in as a `Config` value.
- The HTTP layer (`app.py`, `main.py`) and the server configuration are not part of this model.
- The output stem is sanitised with a narrower whitelist than upload names: it has no `.` (line 32). The model uses that whitelist.
- Containment is lexical. `..` is an ordinary component, because `pathlib` does not collapse it:
  - an upload named `..` is staged as `VIDEO_DIR/..`;
  - a format containing `/` (the HTTP layer passes it through unchecked) can name a path outside the audio directory once the OS resolves it.
  The model states where the output lies only before the OS resolves the path. For a format without `/`, it proves that the output name is one component other than `..`.

## Findings

| source | as written | input that shows it | evidently intended | confidence | as-written member | corrected member |
|---|---|---|---|---|---|---|
| lib/tools/video_to_audio_converter.py:28 | The input check compares strings: `str(input_file).startswith(str(VIDEO_DIR.resolve()))`. | With the video directory `/srv/videos`, the input `/srv/videos2/a.mov` passes the check although it lies outside the directory. | The input lies in the video directory component by component (`is_relative_to`). | not executed | Converter.SiblingPassesStartsWith | Converter.WithinDirIsStricter |
| lib/tools/video_to_audio_converter.py:112 | The delete check compares the same kind of strings against `str(AUDIO_DIR.resolve())`. | With the audio directory `/srv/audio`, let `AUDIO_DIR/x.mp3` be a symbolic link to `/srv/audio2/x.mp3`. Then the target resolves there, passes the check, and that file is deleted. | The target lies in the audio directory component by component. | not executed | Converter.AudioSiblingExample | Converter.DeleteFile |

`StartsWithDir` in `converter.dfy` is the check as written, and `WithinDir` is the corrected check. `ConvertVideoToAudio` and `DeleteFile` take the check as a `DirCheck` argument:

- `StringPrefix` models the code;
- `ComponentWise` is the corrected behaviour, and `StagedUploadIsAdmitted` and `WithinDirIsStricter` state its properties.
