/**
 * The three entry points of the converter: staging an uploaded video under
 * the video directory, converting a staged video into an audio file under
 * the audio directory, and deleting a produced audio file.
 *
 * The ffmpeg process is not run: its stderr lines and the file it leaves at
 * the output path are parameters, and so are the random title number and
 * whether a progress callback was given.
 */
module Converter {
  import opened Paths
  import opened Sanitize
  import opened Patterns
  import opened Progress
  import opened FfmpegCommand
  import opened Storage

  /** The video and audio directories of `dir_config`, and the resolved cover image path. */
  datatype Config = Config(videoDir: string, audioDir: string, logoPath: string)

  /** An uploaded file: the name the client sent and the bytes of its body. */
  datatype Upload = Upload(filename: string, content: seq<bv8>)

  datatype Error =
    | InvalidInputPath  // the "Security Violation" ValueError
    | OsError           // an OSError from open or os.remove

  datatype Result<T> = Success(value: T) | Failure(error: Error)

  /** What a conversion returns (the output path), with the argument list it ran and the progress values it reported. */
  datatype Conversion = Conversion(outPath: string, command: seq<string>, progress: seq<int>)

  // ---------------------------------------------------------------------------
  // The directory checks

  /** The check as written: the resolved path's string starts with the resolved directory's string. */
  predicate StartsWithDir(path: string, dir: string) {
    dir <= path
  }

  /**
   * The check as intended: the resolved path lies in the resolved directory,
   * component by component. It is `Paths.IsRelativeTo` (`is_relative_to`)
   * under the name the converter's checks use.
   */
  predicate WithinDir(path: string, dir: string) {
    IsRelativeTo(path, dir)
  }

  /**
   * Which of the two checks an entry point applies: the code applies
   * `StringPrefix` (lines 28 and 112); `ComponentWise` is the corrected one.
   */
  datatype DirCheck = StringPrefix | ComponentWise

  predicate InDir(check: DirCheck, path: string, dir: string) {
    match check
    case StringPrefix => StartsWithDir(path, dir)
    case ComponentWise => WithinDir(path, dir)
  }

  /**
   * A sibling directory whose name extends the directory's last name passes
   * the check as written, and not the intended one.
   */
  lemma SiblingPassesStartsWith(parent: string, dir: string, extra: string, file: string)
    requires IsComponent(parent) && IsComponent(dir) && IsComponent(file)
    requires extra != "" && '/' !in extra
    ensures StartsWithDir("/" + parent + "/" + dir + extra + "/" + file, "/" + parent + "/" + dir)
    ensures !WithinDir("/" + parent + "/" + dir + extra + "/" + file, "/" + parent + "/" + dir)
  {
    var root := "/" + parent + "/" + dir;
    var sibling := "/" + parent + "/" + (dir + extra + "/" + file);
    assert "/" + parent + "/" + dir + extra + "/" + file == sibling;
    assert root <= sibling;
    ComponentsOfAbsolute(parent, dir);
    ComponentsOfComponent(dir);
    ComponentsOfAbsolute(parent, dir + extra + "/" + file);
    ComponentsCons(dir + extra, file);
    assert Components(root)[1] == dir;
    assert Components(sibling)[1] == dir + extra;
  }

  /** For instance, "/srv/videos2/a.mov" passes as if it lay in "/srv/videos". */
  lemma SiblingExample()
    ensures StartsWithDir("/srv/videos2/a.mov", "/srv/videos")
    ensures !WithinDir("/srv/videos2/a.mov", "/srv/videos")
  {
    SiblingPassesStartsWith("srv", "videos", "2", "a.mov");
    assert "/" + "srv" + "/" + "videos" + "2" + "/" + "a.mov" == "/srv/videos2/a.mov";
    assert "/" + "srv" + "/" + "videos" == "/srv/videos";
  }

  /** Likewise "/srv/audio2/x.mp3" passes as if it lay in "/srv/audio". */
  lemma AudioSiblingExample()
    ensures StartsWithDir("/srv/audio2/x.mp3", "/srv/audio")
    ensures !WithinDir("/srv/audio2/x.mp3", "/srv/audio")
  {
    SiblingPassesStartsWith("srv", "audio", "2", "x.mp3");
    assert "/" + "srv" + "/" + "audio" + "2" + "/" + "x.mp3" == "/srv/audio2/x.mp3";
    assert "/" + "srv" + "/" + "audio" == "/srv/audio";
  }

  /**
   * The intended check is stricter: on resolved (absolute, normal) paths
   * everything it admits the check as written admits too, and it admits
   * every name joined onto the directory.
   */
  lemma WithinDirIsStricter(path: string, dir: string, name: string)
    requires Normal(path) && Normal(dir) && Root(dir) != ""
    requires name == [] || name[0] != '/'
    ensures WithinDir(path, dir) ==> StartsWithDir(path, dir)
    ensures WithinDir(Join(dir, name), dir)
  {
    if WithinDir(path, dir) {
      RelativeIsPrefix(path, dir);
    }
    JoinComponents(dir, name);
  }

  // ---------------------------------------------------------------------------
  // save_uploaded_file

  /** `VIDEO_DIR / safe_name`. */
  function StagedPath(cfg: Config, filename: string): string {
    Join(cfg.videoDir, UploadName(filename))
  }

  /** Writes the upload under its sanitised name in the video directory and returns that path. */
  method SaveUploadedFile(fs: FileSystem, cfg: Config, upload: Upload) returns (r: Result<string>)
    modifies fs
    ensures var target := StagedPath(cfg, upload.filename);
      && (r.Success? <==> old(fs.Writable(target)))
      && (r.Success? ==> r.value == target && fs.nodes == old(fs.nodes)[fs.resolve(target) := File(upload.content)])
      && (r.Failure? ==> r.error == OsError && fs.nodes == old(fs.nodes))
  {
    var safeName := Sanitize.Sanitize(upload.filename, NameChars);
    var target := Join(cfg.videoDir, safeName);
    var ok := fs.WriteFile(target, upload.content);
    if ok {
      r := Success(target);
    } else {
      r := Failure(OsError);
    }
  }

  /**
   * The staged path lies in the video directory and adds at most one
   * component to it, the sanitised name; when that name is a proper
   * component it is the staged file's name and the video directory its parent.
   */
  lemma StagedPathInVideoDir(cfg: Config, filename: string)
    ensures WithinDir(StagedPath(cfg, filename), cfg.videoDir)
    ensures var name := UploadName(filename);
      Components(StagedPath(cfg, filename))
        == Components(cfg.videoDir) + (if name == "" || name == "." then [] else [name])
    ensures var name := UploadName(filename);
      IsComponent(name) ==> Name(StagedPath(cfg, filename)) == name
    ensures var name := UploadName(filename);
      IsComponent(name) && Normal(cfg.videoDir) ==> Parent(StagedPath(cfg, filename)) == cfg.videoDir
  {
    var name := UploadName(filename);
    UploadNameHasNoSlash(filename);
    JoinComponents(cfg.videoDir, name);
    if name == "" || name == "." {
      assert Components(name) == [];
    } else {
      ComponentsOfComponent(name);
      JoinName(cfg.videoDir, name);
      if Normal(cfg.videoDir) {
        ParentOfJoin(cfg.videoDir, name);
      }
    }
  }

  // ---------------------------------------------------------------------------
  // convert_video_to_audio

  /** The input is converted only if it exists once resolved and passes the directory check against the resolved video directory. */
  predicate InputAdmitted(nodes: map<string, Node>, resolve: string -> string, cfg: Config, check: DirCheck,
                          inputPath: string) {
    var inputFile := resolve(inputPath);
    resolve(inputFile) in nodes && InDir(check, inputFile, resolve(cfg.videoDir))
  }

  /** `AUDIO_DIR / f"SoniEffect_Converted_{stem}.{out_format}"`. */
  function OutputPath(cfg: Config, inputFile: string, outFormat: string): string {
    Join(cfg.audioDir, OutputFilename(Stem(Name(inputFile)), outFormat))
  }

  /** The store once ffmpeg has left its output (if any) at the output path. */
  function AfterTranscode(nodes: map<string, Node>, outKey: string, produced: Option<seq<bv8>>): map<string, Node> {
    if produced.Some? then nodes[outKey := File(produced.value)] else nodes
  }

  /** Runs ffmpeg: reads its stderr through the progress parser and records the file it writes. */
  method Transcode(fs: FileSystem, stderr: seq<string>, hasCallback: bool, outPath: string, produced: Option<seq<bv8>>)
    returns (progress: seq<int>)
    modifies fs
    ensures progress == Emitted(stderr, hasCallback)
    ensures fs.nodes == AfterTranscode(old(fs.nodes), fs.resolve(outPath), produced)
  {
    progress := ParseProgress(stderr, hasCallback);
    if produced.Some? {
      fs.nodes := fs.nodes[fs.resolve(outPath) := File(produced.value)];
    }
  }

  /**
   * Converts a staged video: checks the input, builds the ffmpeg command,
   * collects the progress values, and removes the input if it is still there.
   * `produced` is what ffmpeg leaves at the output path; its exit status is
   * not consulted.
   */
  method ConvertVideoToAudio(fs: FileSystem, cfg: Config, check: DirCheck, inputPath: string, outFormat: string,
                             bitrate: string, hasCallback: bool, rand3: nat, stderr: seq<string>,
                             produced: Option<seq<bv8>>)
    returns (r: Result<Conversion>)
    requires 100 <= rand3 <= 999
    modifies fs
    ensures !old(InputAdmitted(fs.nodes, fs.resolve, cfg, check, inputPath)) ==>
      r == Failure(InvalidInputPath) && fs.nodes == old(fs.nodes)
    ensures old(InputAdmitted(fs.nodes, fs.resolve, cfg, check, inputPath)) ==>
      var inputFile := fs.resolve(inputPath);
      var outPath := OutputPath(cfg, inputFile, outFormat);
      var hasLogo := fs.resolve(cfg.logoPath) in old(fs.nodes);
      var written := AfterTranscode(old(fs.nodes), fs.resolve(outPath), produced);
      var key := fs.resolve(inputFile);
      && (r.Success? <==> !(key in written && written[key].Directory?))
      && (r.Success? ==> r.value == Conversion(outPath,
                                               Command(inputFile, hasLogo, cfg.logoPath, outFormat, bitrate, rand3, outPath),
                                               Emitted(stderr, hasCallback)))
      && (r.Failure? ==> r.error == OsError)
      && fs.nodes == (if key in written && written[key].File? then written - {key} else written)
  {
    var inputFile := fs.resolve(inputPath);
    if !fs.Exists(inputFile) || !InDir(check, inputFile, fs.resolve(cfg.videoDir)) {
      return Failure(InvalidInputPath);
    }

    var stem := Sanitize.Sanitize(Stem(Name(inputFile)), StemChars);
    var outputFilename := "SoniEffect_Converted_" + stem + "." + outFormat;
    var outPath := Join(cfg.audioDir, outputFilename);
    var hasLogo := fs.Exists(cfg.logoPath);

    var cmd := BuildCommand(inputFile, hasLogo, cfg.logoPath, outFormat, bitrate, rand3, outPath);
    var progress := Transcode(fs, stderr, hasCallback, outPath, produced);

    if fs.Exists(inputFile) {
      var removed := fs.Remove(inputFile);
      if !removed {
        return Failure(OsError);
      }
    }
    return Success(Conversion(outPath, cmd, progress));
  }

  /**
   * The output lies lexically in the audio directory, whatever the input and
   * format (`..` is a component like any other: nothing collapses it). A
   * format without '/' adds exactly one component, which is not `..`.
   * For a plain format (non-empty, no '.' or '/') its name is the documented
   * one, its stem carries the sanitised input stem and its suffix is the format.
   */
  lemma OutputPathInAudioDir(cfg: Config, inputFile: string, outFormat: string)
    ensures WithinDir(OutputPath(cfg, inputFile, outFormat), cfg.audioDir)
    ensures '/' !in outFormat ==>
      var name := OutputFilename(Stem(Name(inputFile)), outFormat);
      && Components(OutputPath(cfg, inputFile, outFormat)) == Components(cfg.audioDir) + [name]
      && name != ".."
    ensures outFormat != "" && '.' !in outFormat && '/' !in outFormat ==>
      var name := Name(OutputPath(cfg, inputFile, outFormat));
      && name == OutputFilename(Stem(Name(inputFile)), outFormat)
      && Stem(name) == "SoniEffect_Converted_" + Sanitize.Sanitize(Stem(Name(inputFile)), StemChars)
      && Suffix(name) == "." + outFormat
  {
    var fname := OutputFilename(Stem(Name(inputFile)), outFormat);
    JoinComponents(cfg.audioDir, fname);
    if '/' !in outFormat {
      OutputFilenameIsComponent(Stem(Name(inputFile)), outFormat);
      ComponentsOfComponent(fname);
    }
    if outFormat != "" && '.' !in outFormat && '/' !in outFormat {
      OutputFilenameSplits(Stem(Name(inputFile)), outFormat);
      JoinName(cfg.audioDir, fname);
    }
  }

  /** With an absolute audio directory, ffmpeg cannot mistake the output path for an option. */
  lemma OutputPathIsNotOption(cfg: Config, inputFile: string, outFormat: string)
    requires Root(cfg.audioDir) != ""
    ensures !IsOptionName(OutputPath(cfg, inputFile, outFormat))
  {
    var fname := OutputFilename(Stem(Name(inputFile)), outFormat);
    JoinComponents(cfg.audioDir, fname);
  }

  /**
   * An admitted conversion into an absolute audio directory asks ffmpeg to
   * read the resolved input (and the cover image, when it exists) and to write
   * exactly one file, the returned output path, which lies in the audio directory.
   */
  lemma ConversionCommandReadsAndWrites(cfg: Config, inputFile: string, hasLogo: bool, outFormat: string,
                                        bitrate: string, rand3: nat)
    requires Root(cfg.audioDir) != ""
    ensures var outPath := OutputPath(cfg, inputFile, outFormat);
      var r := Invocation(Command(inputFile, hasLogo, cfg.logoPath, outFormat, bitrate, rand3, outPath));
      && r.Some?
      && Select(r.value, ValuesOf("-i")) == [inputFile] + (if hasLogo then [cfg.logoPath] else [])
      && Select(r.value, OutputFiles) == [outPath]
      && WithinDir(outPath, cfg.audioDir)
  {
    var outPath := OutputPath(cfg, inputFile, outFormat);
    OutputPathIsNotOption(cfg, inputFile, outFormat);
    OutputPathInAudioDir(cfg, inputFile, outFormat);
    CommandInputs(inputFile, hasLogo, cfg.logoPath, outFormat, bitrate, rand3, outPath);
    CommandOutput(inputFile, hasLogo, cfg.logoPath, outFormat, bitrate, rand3, outPath);
  }

  /**
   * A file staged by SaveUploadedFile passes the input check of
   * ConvertVideoToAudio, provided resolving the staged path only resolves the
   * video directory (the staged name itself is no link). The corrected check
   * always admits it; the check as written does when the resolved video
   * directory is a normal absolute path, as `resolve()` returns.
   */
  lemma StagedUploadIsAdmitted(nodes: map<string, Node>, resolve: string -> string, cfg: Config, filename: string)
    requires var staged := StagedPath(cfg, filename);
      resolve(staged) == Join(resolve(cfg.videoDir), UploadName(filename))
    requires resolve(resolve(StagedPath(cfg, filename))) == resolve(StagedPath(cfg, filename))
    requires resolve(StagedPath(cfg, filename)) in nodes
    ensures InputAdmitted(nodes, resolve, cfg, ComponentWise, StagedPath(cfg, filename))
    ensures Normal(resolve(cfg.videoDir)) && Root(resolve(cfg.videoDir)) != "" ==>
      InputAdmitted(nodes, resolve, cfg, StringPrefix, StagedPath(cfg, filename))
  {
    var dir := resolve(cfg.videoDir);
    UploadNameHasNoSlash(filename);
    JoinComponents(dir, UploadName(filename));
    if Normal(dir) && Root(dir) != "" {
      WithinDirIsStricter(Join(dir, UploadName(filename)), dir, UploadName(filename));
    }
  }

  // ---------------------------------------------------------------------------
  // delete_file

  /** `(AUDIO_DIR / Path(filename).name).resolve()`. */
  function DeleteTarget(resolve: string -> string, cfg: Config, filename: string): string {
    resolve(Join(cfg.audioDir, Name(filename)))
  }

  /**
   * Deletes a produced audio file by name. Never fails: anything that goes
   * wrong reads as "not deleted". Only a file that exists and passes the
   * directory check against the resolved audio directory is removed.
   */
  method DeleteFile(fs: FileSystem, cfg: Config, check: DirCheck, filename: string) returns (deleted: bool)
    modifies fs
    ensures var target := DeleteTarget(fs.resolve, cfg, filename);
      deleted <==> old(fs.IsFile(target)) && InDir(check, target, fs.resolve(cfg.audioDir))
    ensures deleted ==> fs.nodes == old(fs.nodes) - {fs.resolve(DeleteTarget(fs.resolve, cfg, filename))}
    ensures !deleted ==> fs.nodes == old(fs.nodes)
  {
    var safeName := Name(filename);
    var target := fs.resolve(Join(cfg.audioDir, safeName));
    if fs.Exists(target) && InDir(check, target, fs.resolve(cfg.audioDir)) {
      deleted := fs.Remove(target);
      return;
    }
    return false;
  }

  /**
   * Only the last component of the argument matters: before resolution the
   * target is the audio directory itself or the audio directory plus that one
   * name, so `../../etc/passwd` asks for `passwd` in the audio directory.
   */
  lemma DeleteUsesBasename(cfg: Config, filename: string)
    ensures var name := Name(filename);
      && WithinDir(Join(cfg.audioDir, name), cfg.audioDir)
      && Components(Join(cfg.audioDir, name)) == Components(cfg.audioDir) + (if name == "" then [] else [name])
  {
    var name := Name(filename);
    if name == "" {
      assert Components(name) == [];
    } else {
      ComponentsOfComponent(name);
    }
    JoinComponents(cfg.audioDir, name);
  }

  /** For instance, `../../etc/passwd` names `passwd`. */
  lemma TraversalNamesLastComponent()
    ensures Name("../../etc/passwd") == "passwd"
  {
    NameAfterDirectories("../../etc", "passwd");
    assert "../../etc/passwd" == "../../etc" + "/" + "passwd";
  }
}
