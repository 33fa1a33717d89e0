/**
 * The ffmpeg argument list the converter builds, and how ffmpeg reads it
 * back: which inputs it opens, which file it writes, and with which codec,
 * bitrate, stream maps and metadata.
 */
module FfmpegCommand {
  import opened Sequences
  import opened Patterns

  // ---------------------------------------------------------------------------
  // `str(n)` for the random title number

  function DigitChar(d: nat): (c: char)
    requires d < 10
    ensures IsDigit(c) && DigitValue(c) == d
  {
    ('0' as int + d) as char
  }

  /** `str(n)`: decimal digits, no leading zero, reading back as n. */
  function DecimalString(n: nat): (s: string)
    ensures s != [] && AllDigits(s)
    ensures Number(s) == n
    ensures |s| == 1 || s[0] != '0'
    decreases n
  {
    if n < 10 then [DigitChar(n)]
    else
      var s := DecimalString(n / 10) + [DigitChar(n % 10)];
      assert s[..|s| - 1] == DecimalString(n / 10);
      s
  }

  // ---------------------------------------------------------------------------
  // The command

  /** The audio codec chosen for an output format. */
  function CodecName(outFormat: string): string {
    if outFormat == "mp3" then "libmp3lame"
    else if outFormat == "m4a" then "aac"
    else if outFormat == "flac" then "flac"
    else "pcm_s16le"
  }

  function InputArgs(inputFile: string): seq<string> {
    ["-y", "-hide_banner", "-loglevel", "info",
     "-hwaccel", "auto",
     "-thread_queue_size", "4096",
     "-i", inputFile]
  }

  function LogoInputArgs(hasLogo: bool, logoPath: string): seq<string> {
    if hasLogo then ["-i", logoPath] else []
  }

  const AudioMapArgs: seq<string> := ["-map", "0:a:0"]

  function CoverArtArgs(hasLogo: bool): seq<string> {
    if hasLogo then ["-map", "1:v:0", "-disposition:v:0", "attached_pic"] else []
  }

  function CodecArgs(outFormat: string, bitrate: string): seq<string> {
    if outFormat == "mp3" then
      ["-c:a", "libmp3lame", "-b:a", bitrate,
       "-compression_level", "0",
       "-id3v2_version", "3",
       "-metadata:s:v", "title=Album cover",
       "-metadata:s:v", "comment=Cover (front)"]
    else if outFormat == "m4a" then
      ["-c:a", "aac", "-b:a", bitrate, "-cutoff", "20000"]
    else
      ["-c:a", if outFormat == "flac" then "flac" else "pcm_s16le"]
  }

  function Title(rand3: nat): string {
    "title=SoniEffect Audio #" + DecimalString(rand3)
  }

  function OutputArgs(rand3: nat, outPath: string): seq<string> {
    ["-metadata", Title(rand3),
     "-metadata", "artist=SoniEffect",
     "-metadata", "album=SoniEffect Conversions",
     "-movflags", "+faststart",
     "-threads", "0",
     outPath]
  }

  /** The arguments after the program name, segment by segment in the order the converter extends the list. */
  function Arguments(inputFile: string, hasLogo: bool, logoPath: string, outFormat: string,
                     bitrate: string, rand3: nat, outPath: string): seq<string>
  {
    InputArgs(inputFile) + LogoInputArgs(hasLogo, logoPath) + AudioMapArgs
      + CoverArtArgs(hasLogo) + CodecArgs(outFormat, bitrate) + OutputArgs(rand3, outPath)
  }

  /** The whole argument list handed to `subprocess.Popen`. */
  function Command(inputFile: string, hasLogo: bool, logoPath: string, outFormat: string,
                   bitrate: string, rand3: nat, outPath: string): seq<string>
  {
    ["ffmpeg"] + Arguments(inputFile, hasLogo, logoPath, outFormat, bitrate, rand3, outPath)
  }

  /** The list built as the converter builds it: a literal, then `extend` calls. */
  method BuildCommand(inputFile: string, hasLogo: bool, logoPath: string, outFormat: string,
                      bitrate: string, rand3: nat, outPath: string) returns (cmd: seq<string>)
    ensures cmd == Command(inputFile, hasLogo, logoPath, outFormat, bitrate, rand3, outPath)
  {
    cmd := ["ffmpeg", "-y", "-hide_banner", "-loglevel", "info",
            "-hwaccel", "auto",
            "-thread_queue_size", "4096",
            "-i", inputFile];
    ghost var args := InputArgs(inputFile);
    assert cmd == ["ffmpeg"] + args;

    if hasLogo {
      cmd := Extend(cmd, ["-i", logoPath], args);
    }
    args := args + LogoInputArgs(hasLogo, logoPath);

    cmd := Extend(cmd, ["-map", "0:a:0"], args);
    args := args + AudioMapArgs;

    if hasLogo {
      cmd := Extend(cmd, ["-map", "1:v:0", "-disposition:v:0", "attached_pic"], args);
    }
    args := args + CoverArtArgs(hasLogo);

    if outFormat == "mp3" {
      cmd := Extend(cmd, ["-c:a", "libmp3lame", "-b:a", bitrate,
                          "-compression_level", "0",
                          "-id3v2_version", "3",
                          "-metadata:s:v", "title=Album cover",
                          "-metadata:s:v", "comment=Cover (front)"], args);
    } else if outFormat == "m4a" {
      cmd := Extend(cmd, ["-c:a", "aac", "-b:a", bitrate, "-cutoff", "20000"], args);
    } else {
      cmd := Extend(cmd, ["-c:a", if outFormat == "flac" then "flac" else "pcm_s16le"], args);
    }
    args := args + CodecArgs(outFormat, bitrate);

    cmd := Extend(cmd, ["-metadata", "title=SoniEffect Audio #" + DecimalString(rand3),
                        "-metadata", "artist=SoniEffect",
                        "-metadata", "album=SoniEffect Conversions",
                        "-movflags", "+faststart",
                        "-threads", "0",
                        outPath], args);
    args := args + OutputArgs(rand3, outPath);
  }

  /** `list.extend`: the items go at the end, after the program name and the arguments so far. */
  method Extend(cmd: seq<string>, items: seq<string>, ghost args: seq<string>) returns (extended: seq<string>)
    requires cmd == ["ffmpeg"] + args
    ensures extended == cmd + items
    ensures extended == ["ffmpeg"] + (args + items)
  {
    extended := cmd + items;
    ConcatAssoc(["ffmpeg"], args, items);
  }

  /**
   * The list opens with the program, the fixed input options and the video;
   * the cover image's input, when there is one, comes next and before the
   * audio map; and the output path is the last element.
   */
  lemma CommandLayout(inputFile: string, hasLogo: bool, logoPath: string, outFormat: string,
                      bitrate: string, rand3: nat, outPath: string)
    ensures var cmd := Command(inputFile, hasLogo, logoPath, outFormat, bitrate, rand3, outPath);
      && |cmd| >= 15
      && cmd[..11] == ["ffmpeg", "-y", "-hide_banner", "-loglevel", "info", "-hwaccel", "auto",
                       "-thread_queue_size", "4096", "-i", inputFile]
      && (hasLogo ==> cmd[11..15] == ["-i", logoPath, "-map", "0:a:0"])
      && (!hasLogo ==> cmd[11..13] == ["-map", "0:a:0"])
      && cmd[|cmd| - 1] == outPath
  {
    var head := ["ffmpeg"] + InputArgs(inputFile);
    var middle := LogoInputArgs(hasLogo, logoPath) + AudioMapArgs;
    var tail := CoverArtArgs(hasLogo) + CodecArgs(outFormat, bitrate) + OutputArgs(rand3, outPath);
    Regroup(["ffmpeg"], InputArgs(inputFile), LogoInputArgs(hasLogo, logoPath), AudioMapArgs,
            CoverArtArgs(hasLogo), CodecArgs(outFormat, bitrate), OutputArgs(rand3, outPath));
    Pieces(head, middle, tail);
    assert |head| == 11;
    assert tail[|tail| - 1] == outPath;
  }

  lemma Regroup<T>(p: seq<T>, a: seq<T>, b: seq<T>, c: seq<T>, d: seq<T>, e: seq<T>, f: seq<T>)
    ensures p + (a + b + c + d + e + f) == (p + a) + (b + c) + (d + e + f)
  {
  }

  lemma Pieces<T>(x: seq<T>, y: seq<T>, z: seq<T>)
    requires z != []
    ensures (x + y + z)[..|x|] == x
    ensures (x + y + z)[|x|..|x| + |y|] == y
    ensures (x + y + z)[|x + y + z| - 1] == z[|z| - 1]
  {
  }

  // ---------------------------------------------------------------------------
  // How ffmpeg reads an argument list

  /** One parsed argument: a switch, an option with its value, or a file name. */
  datatype Arg = Switch(name: string) | Opt(name: string, value: string) | FileArg(path: string)

  predicate IsOptionName(a: string) {
    a != [] && a[0] == '-'
  }

  /** The switches among the options used here; every other option takes one value. */
  predicate IsSwitch(a: string) {
    a == "-y" || a == "-hide_banner"
  }

  /** ffmpeg's left-to-right reading of its arguments; None when an option lacks its value. */
  function Parse(args: seq<string>): Option<seq<Arg>>
    decreases |args|
  {
    if args == [] then Some([])
    else if !IsOptionName(args[0]) then
      var rest := Parse(args[1..]);
      if rest.None? then None else Some([FileArg(args[0])] + rest.value)
    else if IsSwitch(args[0]) then
      var rest := Parse(args[1..]);
      if rest.None? then None else Some([Switch(args[0])] + rest.value)
    else if |args| < 2 then None
    else
      var rest := Parse(args[2..]);
      if rest.None? then None else Some([Opt(args[0], args[1])] + rest.value)
  }

  /** The program name followed by arguments ffmpeg can read. */
  function Invocation(cmd: seq<string>): Option<seq<Arg>> {
    if cmd != [] && cmd[0] == "ffmpeg" then Parse(cmd[1..]) else None
  }

  /** What is asked of a parsed argument list: the values of one option, or the output files. */
  datatype Query = ValuesOf(name: string) | OutputFiles

  predicate Answers(a: Arg, q: Query) {
    if q.OutputFiles? then a.FileArg? else a.Opt? && a.name == q.name
  }

  function AnswerOf(a: Arg): string {
    match a
    case Switch(n) => n
    case Opt(_, v) => v
    case FileArg(p) => p
  }

  /** The answers to a query, in argument order. */
  function Select(args: seq<Arg>, q: Query): seq<string>
    decreases |args|
  {
    if args == [] then []
    else (if Answers(args[0], q) then [AnswerOf(args[0])] else []) + Select(args[1..], q)
  }

  // ---------------------------------------------------------------------------
  // Reading the command back

  lemma {:induction false} ParseAppend(a: seq<string>, b: seq<string>)
    requires Parse(a).Some?
    ensures Parse(a + b) == if Parse(b).None? then None else Some(Parse(a).value + Parse(b).value)
    decreases |a|
  {
    if a == [] {
      assert a + b == b;
      if Parse(b).Some? {
        assert Parse(a).value + Parse(b).value == Parse(b).value;
      }
    } else {
      var k := if !IsOptionName(a[0]) || IsSwitch(a[0]) then 1 else 2;
      var head := Parse(a).value[..1];
      assert (a + b)[0] == a[0];
      assert (a + b)[k..] == a[k..] + b;
      ParseAppend(a[k..], b);
      if Parse(b).Some? {
        ConcatAssoc(head, Parse(a[k..]).value, Parse(b).value);
      }
    }
  }

  lemma ParseOptionAt(s: seq<string>, k: nat)
    requires k + 2 <= |s| && IsOptionName(s[k]) && !IsSwitch(s[k]) && Parse(s[k + 2..]).Some?
    ensures Parse(s[k..]) == Some([Opt(s[k], s[k + 1])] + Parse(s[k + 2..]).value)
  {
    assert s[k..][2..] == s[k + 2..];
  }

  lemma ParseSwitchAt(s: seq<string>, k: nat)
    requires k < |s| && IsSwitch(s[k]) && Parse(s[k + 1..]).Some?
    ensures Parse(s[k..]) == Some([Switch(s[k])] + Parse(s[k + 1..]).value)
  {
    assert s[k..][1..] == s[k + 1..];
  }

  lemma ParseFileAt(s: seq<string>, k: nat)
    requires k < |s| && !IsOptionName(s[k]) && Parse(s[k + 1..]).Some?
    ensures Parse(s[k..]) == Some([FileArg(s[k])] + Parse(s[k + 1..]).value)
  {
    assert s[k..][1..] == s[k + 1..];
  }

  // How ffmpeg reads each segment

  function InputPlan(inputFile: string): seq<Arg> {
    [Switch("-y"), Switch("-hide_banner"), Opt("-loglevel", "info"), Opt("-hwaccel", "auto"),
     Opt("-thread_queue_size", "4096"), Opt("-i", inputFile)]
  }

  function LogoInputPlan(hasLogo: bool, logoPath: string): seq<Arg> {
    if hasLogo then [Opt("-i", logoPath)] else []
  }

  const AudioMapPlan: seq<Arg> := [Opt("-map", "0:a:0")]

  function CoverArtPlan(hasLogo: bool): seq<Arg> {
    if hasLogo then [Opt("-map", "1:v:0"), Opt("-disposition:v:0", "attached_pic")] else []
  }

  function CodecPlan(outFormat: string, bitrate: string): seq<Arg> {
    if outFormat == "mp3" then
      [Opt("-c:a", "libmp3lame"), Opt("-b:a", bitrate), Opt("-compression_level", "0"),
       Opt("-id3v2_version", "3"), Opt("-metadata:s:v", "title=Album cover"),
       Opt("-metadata:s:v", "comment=Cover (front)")]
    else if outFormat == "m4a" then
      [Opt("-c:a", "aac"), Opt("-b:a", bitrate), Opt("-cutoff", "20000")]
    else [Opt("-c:a", CodecName(outFormat))]
  }

  function OutputPlan(rand3: nat, outPath: string): seq<Arg> {
    [Opt("-metadata", Title(rand3)), Opt("-metadata", "artist=SoniEffect"),
     Opt("-metadata", "album=SoniEffect Conversions"), Opt("-movflags", "+faststart"),
     Opt("-threads", "0"), FileArg(outPath)]
  }

  /** The reading of the whole argument list, segment by segment. */
  function Plan(inputFile: string, hasLogo: bool, logoPath: string, outFormat: string,
                bitrate: string, rand3: nat, outPath: string): seq<Arg>
  {
    InputPlan(inputFile) + LogoInputPlan(hasLogo, logoPath) + AudioMapPlan
      + CoverArtPlan(hasLogo) + CodecPlan(outFormat, bitrate) + OutputPlan(rand3, outPath)
  }

  lemma ParseInputArgs(inputFile: string)
    ensures Parse(InputArgs(inputFile)) == Some(InputPlan(inputFile))
  {
    var s := InputArgs(inputFile);
    assert Parse(s[10..]) == Some([]);
    ParseOptionAt(s, 8);
    ParseOptionAt(s, 6);
    ParseOptionAt(s, 4);
    ParseOptionAt(s, 2);
    ParseSwitchAt(s, 1);
    ParseSwitchAt(s, 0);
    assert s[0..] == s;
    assert Parse(s).value == InputPlan(inputFile);
  }

  lemma ParseSmallArgs(hasLogo: bool, logoPath: string)
    ensures Parse(LogoInputArgs(hasLogo, logoPath)) == Some(LogoInputPlan(hasLogo, logoPath))
    ensures Parse(AudioMapArgs) == Some(AudioMapPlan)
    ensures Parse(CoverArtArgs(hasLogo)) == Some(CoverArtPlan(hasLogo))
  {
    var l := ["-i", logoPath];
    assert Parse(l[2..]) == Some([]);
    ParseOptionAt(l, 0);
    assert l[0..] == l;
    assert Parse(l).value == [Opt("-i", logoPath)];
    var a := AudioMapArgs;
    assert Parse(a[2..]) == Some([]);
    ParseOptionAt(a, 0);
    assert a[0..] == a;
    assert Parse(a).value == AudioMapPlan;
    var c := ["-map", "1:v:0", "-disposition:v:0", "attached_pic"];
    assert Parse(c[4..]) == Some([]);
    ParseOptionAt(c, 2);
    ParseOptionAt(c, 0);
    assert c[0..] == c;
    assert Parse(c).value == [Opt("-map", "1:v:0"), Opt("-disposition:v:0", "attached_pic")];
  }

  lemma ParseCodecArgs(outFormat: string, bitrate: string)
    ensures Parse(CodecArgs(outFormat, bitrate)) == Some(CodecPlan(outFormat, bitrate))
  {
    if outFormat == "mp3" {
      ParseMp3Args(bitrate);
    } else if outFormat == "m4a" {
      var s := CodecArgs(outFormat, bitrate);
      assert Parse(s[6..]) == Some([]);
      ParseOptionAt(s, 4);
      ParseOptionAt(s, 2);
      ParseOptionAt(s, 0);
      assert s[0..] == s;
      assert Parse(s).value == CodecPlan(outFormat, bitrate);
    } else {
      var s := CodecArgs(outFormat, bitrate);
      assert Parse(s[2..]) == Some([]);
      ParseOptionAt(s, 0);
      assert s[0..] == s;
      assert Parse(s).value == CodecPlan(outFormat, bitrate);
    }
  }

  lemma ParseMp3Args(bitrate: string)
    ensures Parse(CodecArgs("mp3", bitrate)) == Some(CodecPlan("mp3", bitrate))
  {
    var s := CodecArgs("mp3", bitrate);
    assert Parse(s[12..]) == Some([]);
    ParseOptionAt(s, 10);
    ParseOptionAt(s, 8);
    ParseOptionAt(s, 6);
    ParseOptionAt(s, 4);
    ParseOptionAt(s, 2);
    ParseOptionAt(s, 0);
    assert s[0..] == s;
    assert Parse(s).value == CodecPlan("mp3", bitrate);
  }

  lemma ParseOutputArgs(rand3: nat, outPath: string)
    requires !IsOptionName(outPath)
    ensures Parse(OutputArgs(rand3, outPath)) == Some(OutputPlan(rand3, outPath))
  {
    var s := OutputArgs(rand3, outPath);
    assert Parse(s[11..]) == Some([]);
    ParseFileAt(s, 10);
    ParseOptionAt(s, 8);
    ParseOptionAt(s, 6);
    ParseOptionAt(s, 4);
    ParseOptionAt(s, 2);
    ParseOptionAt(s, 0);
    assert s[0..] == s;
    assert Parse(s).value == OutputPlan(rand3, outPath);
  }

  /** ffmpeg reads the whole argument list, segment by segment, as the plan says. */
  lemma CommandParses(inputFile: string, hasLogo: bool, logoPath: string, outFormat: string,
                      bitrate: string, rand3: nat, outPath: string)
    requires !IsOptionName(outPath)
    ensures Invocation(Command(inputFile, hasLogo, logoPath, outFormat, bitrate, rand3, outPath))
         == Some(Plan(inputFile, hasLogo, logoPath, outFormat, bitrate, rand3, outPath))
  {
    var a := InputArgs(inputFile);
    var b := LogoInputArgs(hasLogo, logoPath);
    var c := AudioMapArgs;
    var d := CoverArtArgs(hasLogo);
    var e := CodecArgs(outFormat, bitrate);
    var f := OutputArgs(rand3, outPath);
    ParseInputArgs(inputFile);
    ParseSmallArgs(hasLogo, logoPath);
    ParseCodecArgs(outFormat, bitrate);
    ParseOutputArgs(rand3, outPath);
    ParseAppend(a, b);
    ParseAppend(a + b, c);
    ParseAppend(a + b + c, d);
    ParseAppend(a + b + c + d, e);
    ParseAppend(a + b + c + d + e, f);
    var args := Arguments(inputFile, hasLogo, logoPath, outFormat, bitrate, rand3, outPath);
    assert (["ffmpeg"] + args)[1..] == args;
  }

  lemma {:induction false} SelectAppend(xs: seq<Arg>, ys: seq<Arg>, q: Query)
    ensures Select(xs + ys, q) == Select(xs, q) + Select(ys, q)
    decreases |xs|
  {
    if xs == [] {
      assert xs + ys == ys;
    } else {
      assert (xs + ys)[1..] == xs[1..] + ys;
      SelectAppend(xs[1..], ys, q);
      ConcatAssoc(if Answers(xs[0], q) then [AnswerOf(xs[0])] else [], Select(xs[1..], q), Select(ys, q));
    }
  }

  lemma {:induction false} SelectNone(xs: seq<Arg>, q: Query)
    requires forall i :: 0 <= i < |xs| ==> !Answers(xs[i], q)
    ensures Select(xs, q) == []
    decreases |xs|
  {
    if xs != [] {
      SelectNone(xs[1..], q);
    }
  }

  /** A query that exactly one argument answers yields that argument's value alone. */
  lemma SelectSingle(xs: seq<Arg>, k: nat, q: Query)
    requires k < |xs| && Answers(xs[k], q)
    requires forall i :: 0 <= i < |xs| && i != k ==> !Answers(xs[i], q)
    ensures Select(xs, q) == [AnswerOf(xs[k])]
  {
    SelectNone(xs[..k], q);
    SelectNone(xs[k + 1..], q);
    SelectAppend(xs[..k], xs[k..], q);
    assert xs[..k] + xs[k..] == xs;
    assert xs[k..][1..] == xs[k + 1..];
  }

  /** The answers to a query over the whole plan, segment by segment. */
  lemma SelectPlan(inputFile: string, hasLogo: bool, logoPath: string, outFormat: string,
                   bitrate: string, rand3: nat, outPath: string, q: Query)
    ensures Select(Plan(inputFile, hasLogo, logoPath, outFormat, bitrate, rand3, outPath), q)
         == Select(InputPlan(inputFile), q) + Select(LogoInputPlan(hasLogo, logoPath), q)
          + Select(AudioMapPlan, q) + Select(CoverArtPlan(hasLogo), q)
          + Select(CodecPlan(outFormat, bitrate), q) + Select(OutputPlan(rand3, outPath), q)
  {
    var a := InputPlan(inputFile);
    var b := LogoInputPlan(hasLogo, logoPath);
    var c := AudioMapPlan;
    var d := CoverArtPlan(hasLogo);
    var e := CodecPlan(outFormat, bitrate);
    var f := OutputPlan(rand3, outPath);
    SelectAppend(a, b, q);
    SelectAppend(a + b, c, q);
    SelectAppend(a + b + c, d, q);
    SelectAppend(a + b + c + d, e, q);
    SelectAppend(a + b + c + d + e, f, q);
  }

  lemma InputPlanAnswers(inputFile: string)
    ensures Select(InputPlan(inputFile), ValuesOf("-i")) == [inputFile]
    ensures Select(InputPlan(inputFile), ValuesOf("-map")) == []
    ensures Select(InputPlan(inputFile), ValuesOf("-c:a")) == []
    ensures Select(InputPlan(inputFile), ValuesOf("-b:a")) == []
    ensures Select(InputPlan(inputFile), ValuesOf("-metadata")) == []
    ensures Select(InputPlan(inputFile), OutputFiles) == []
  {
    var xs := InputPlan(inputFile);
    SelectNone(xs[..5], ValuesOf("-i"));
    SelectAppend(xs[..5], [Opt("-i", inputFile)], ValuesOf("-i"));
    assert xs[..5] + [Opt("-i", inputFile)] == xs;
    SelectNone(xs, ValuesOf("-map"));
    SelectNone(xs, ValuesOf("-c:a"));
    SelectNone(xs, ValuesOf("-b:a"));
    SelectNone(xs, ValuesOf("-metadata"));
    SelectNone(xs, OutputFiles);
  }

  lemma LogoInputPlanAnswers(hasLogo: bool, logoPath: string)
    ensures Select(LogoInputPlan(hasLogo, logoPath), ValuesOf("-i")) == if hasLogo then [logoPath] else []
    ensures Select(LogoInputPlan(hasLogo, logoPath), ValuesOf("-map")) == []
    ensures Select(LogoInputPlan(hasLogo, logoPath), ValuesOf("-c:a")) == []
    ensures Select(LogoInputPlan(hasLogo, logoPath), ValuesOf("-b:a")) == []
    ensures Select(LogoInputPlan(hasLogo, logoPath), ValuesOf("-metadata")) == []
    ensures Select(LogoInputPlan(hasLogo, logoPath), OutputFiles) == []
  {
  }

  lemma AudioMapPlanAnswers()
    ensures Select(AudioMapPlan, ValuesOf("-map")) == ["0:a:0"]
    ensures Select(AudioMapPlan, ValuesOf("-i")) == []
    ensures Select(AudioMapPlan, ValuesOf("-c:a")) == []
    ensures Select(AudioMapPlan, ValuesOf("-b:a")) == []
    ensures Select(AudioMapPlan, ValuesOf("-metadata")) == []
    ensures Select(AudioMapPlan, OutputFiles) == []
  {
  }

  lemma CoverArtPlanAnswers(hasLogo: bool)
    ensures Select(CoverArtPlan(hasLogo), ValuesOf("-map")) == if hasLogo then ["1:v:0"] else []
    ensures Select(CoverArtPlan(hasLogo), ValuesOf("-i")) == []
    ensures Select(CoverArtPlan(hasLogo), ValuesOf("-c:a")) == []
    ensures Select(CoverArtPlan(hasLogo), ValuesOf("-b:a")) == []
    ensures Select(CoverArtPlan(hasLogo), ValuesOf("-metadata")) == []
    ensures Select(CoverArtPlan(hasLogo), OutputFiles) == []
  {
    var xs := CoverArtPlan(hasLogo);
    if hasLogo {
      assert Select(xs[1..], ValuesOf("-map")) == [];
    }
    SelectNone(xs, ValuesOf("-i"));
    SelectNone(xs, ValuesOf("-c:a"));
    SelectNone(xs, ValuesOf("-b:a"));
    SelectNone(xs, ValuesOf("-metadata"));
    SelectNone(xs, OutputFiles);
  }

  lemma CodecPlanAnswers(outFormat: string, bitrate: string)
    ensures Select(CodecPlan(outFormat, bitrate), ValuesOf("-c:a")) == [CodecName(outFormat)]
    ensures Select(CodecPlan(outFormat, bitrate), ValuesOf("-b:a"))
         == if outFormat == "mp3" || outFormat == "m4a" then [bitrate] else []
    ensures Select(CodecPlan(outFormat, bitrate), ValuesOf("-i")) == []
    ensures Select(CodecPlan(outFormat, bitrate), ValuesOf("-map")) == []
    ensures Select(CodecPlan(outFormat, bitrate), ValuesOf("-metadata")) == []
    ensures Select(CodecPlan(outFormat, bitrate), OutputFiles) == []
  {
    CodecPlanSettings(outFormat, bitrate);
    CodecPlanIgnores(outFormat, bitrate, ValuesOf("-i"));
    CodecPlanIgnores(outFormat, bitrate, ValuesOf("-map"));
    CodecPlanIgnores(outFormat, bitrate, ValuesOf("-metadata"));
    CodecPlanIgnores(outFormat, bitrate, OutputFiles);
  }

  lemma CodecPlanIgnores(outFormat: string, bitrate: string, q: Query)
    requires q.OutputFiles? || q.name == "-i" || q.name == "-map" || q.name == "-metadata"
    ensures Select(CodecPlan(outFormat, bitrate), q) == []
  {
    SelectNone(CodecPlan(outFormat, bitrate), q);
  }

  lemma CodecPlanSettings(outFormat: string, bitrate: string)
    ensures Select(CodecPlan(outFormat, bitrate), ValuesOf("-c:a")) == [CodecName(outFormat)]
    ensures Select(CodecPlan(outFormat, bitrate), ValuesOf("-b:a"))
         == if outFormat == "mp3" || outFormat == "m4a" then [bitrate] else []
  {
    var xs := CodecPlan(outFormat, bitrate);
    if outFormat == "mp3" || outFormat == "m4a" {
      SelectNone(xs[2..], ValuesOf("-c:a"));
      SelectNone(xs[2..], ValuesOf("-b:a"));
      assert xs[1..][1..] == xs[2..];
    }
  }

  lemma OutputPlanMetadata(rand3: nat, outPath: string)
    ensures Select(OutputPlan(rand3, outPath), ValuesOf("-metadata"))
         == [Title(rand3), "artist=SoniEffect", "album=SoniEffect Conversions"]
  {
    var xs := OutputPlan(rand3, outPath);
    var q := ValuesOf("-metadata");
    SelectNone(xs[3..], q);
    SelectAppend(xs[..3], xs[3..], q);
    assert xs[..3] + xs[3..] == xs;
    var m := xs[..3];
    assert Select(m[2..], q) == ["album=SoniEffect Conversions"];
    assert Select(m[1..], q) == ["artist=SoniEffect", "album=SoniEffect Conversions"];
  }

  lemma OutputPlanAnswers(rand3: nat, outPath: string)
    ensures Select(OutputPlan(rand3, outPath), OutputFiles) == [outPath]
    ensures Select(OutputPlan(rand3, outPath), ValuesOf("-i")) == []
    ensures Select(OutputPlan(rand3, outPath), ValuesOf("-map")) == []
    ensures Select(OutputPlan(rand3, outPath), ValuesOf("-c:a")) == []
    ensures Select(OutputPlan(rand3, outPath), ValuesOf("-b:a")) == []
  {
    var xs := OutputPlan(rand3, outPath);
    SelectNone(xs[..5], OutputFiles);
    SelectAppend(xs[..5], [FileArg(outPath)], OutputFiles);
    assert xs[..5] + [FileArg(outPath)] == xs;
    SelectNone(xs, ValuesOf("-i"));
    SelectNone(xs, ValuesOf("-map"));
    SelectNone(xs, ValuesOf("-c:a"));
    SelectNone(xs, ValuesOf("-b:a"));
  }

  // ---------------------------------------------------------------------------
  // What ffmpeg is asked to do

  lemma PlanInputs(inputFile: string, hasLogo: bool, logoPath: string, outFormat: string,
                   bitrate: string, rand3: nat, outPath: string)
    ensures Select(Plan(inputFile, hasLogo, logoPath, outFormat, bitrate, rand3, outPath), ValuesOf("-i"))
         == [inputFile] + (if hasLogo then [logoPath] else [])
  {
    var logo: seq<string> := if hasLogo then [logoPath] else [];
    assert Select(Plan(inputFile, hasLogo, logoPath, outFormat, bitrate, rand3, outPath), ValuesOf("-i"))
        == [inputFile] + logo + [] + [] + [] + [] by {
      SelectPlan(inputFile, hasLogo, logoPath, outFormat, bitrate, rand3, outPath, ValuesOf("-i"));
      InputPlanAnswers(inputFile);
      LogoInputPlanAnswers(hasLogo, logoPath);
      AudioMapPlanAnswers();
      CoverArtPlanAnswers(hasLogo);
      CodecPlanAnswers(outFormat, bitrate);
      OutputPlanAnswers(rand3, outPath);
    }
    assert [inputFile] + logo + [] + [] + [] + [] == [inputFile] + logo;
  }

  /** ffmpeg opens the video first and the cover image second, when there is one, and nothing else. */
  lemma CommandInputs(inputFile: string, hasLogo: bool, logoPath: string, outFormat: string,
                      bitrate: string, rand3: nat, outPath: string)
    requires !IsOptionName(outPath)
    ensures var r := Invocation(Command(inputFile, hasLogo, logoPath, outFormat, bitrate, rand3, outPath));
      r.Some? && Select(r.value, ValuesOf("-i")) == [inputFile] + (if hasLogo then [logoPath] else [])
  {
    CommandParses(inputFile, hasLogo, logoPath, outFormat, bitrate, rand3, outPath);
    PlanInputs(inputFile, hasLogo, logoPath, outFormat, bitrate, rand3, outPath);
  }

  lemma PlanOutput(inputFile: string, hasLogo: bool, logoPath: string, outFormat: string,
      bitrate: string, rand3: nat, outPath: string)
    ensures var plan := Plan(inputFile, hasLogo, logoPath, outFormat, bitrate, rand3, outPath);
      Select(plan, OutputFiles) == [outPath] && plan[|plan| - 1] == FileArg(outPath)
  {
    assert Select(Plan(inputFile, hasLogo, logoPath, outFormat, bitrate, rand3, outPath), OutputFiles) == [] + [] + [] + [] + [] + [outPath] by {
      SelectPlan(inputFile, hasLogo, logoPath, outFormat, bitrate, rand3, outPath, OutputFiles);
      InputPlanAnswers(inputFile);
      LogoInputPlanAnswers(hasLogo, logoPath);
      AudioMapPlanAnswers();
      CoverArtPlanAnswers(hasLogo);
      CodecPlanAnswers(outFormat, bitrate);
      OutputPlanAnswers(rand3, outPath);
    }
  }

  /** The one file ffmpeg writes is the output path, named last so that every option applies to it. */
  lemma CommandOutput(inputFile: string, hasLogo: bool, logoPath: string, outFormat: string,
      bitrate: string, rand3: nat, outPath: string)
    requires !IsOptionName(outPath)
    ensures var r := Invocation(Command(inputFile, hasLogo, logoPath, outFormat, bitrate, rand3, outPath));
      r.Some? && Select(r.value, OutputFiles) == [outPath] && r.value[|r.value| - 1] == FileArg(outPath)
  {
    CommandParses(inputFile, hasLogo, logoPath, outFormat, bitrate, rand3, outPath);
    PlanOutput(inputFile, hasLogo, logoPath, outFormat, bitrate, rand3, outPath);
  }

  lemma PlanStreamMaps(inputFile: string, hasLogo: bool, logoPath: string, outFormat: string,
      bitrate: string, rand3: nat, outPath: string)
    ensures var plan := Plan(inputFile, hasLogo, logoPath, outFormat, bitrate, rand3, outPath);
      && Select(plan, ValuesOf("-map")) == ["0:a:0"] + (if hasLogo then ["1:v:0"] else [])
      && (Opt("-disposition:v:0", "attached_pic") in plan <==> hasLogo)
  {
    PlanDisposition(inputFile, hasLogo, logoPath, outFormat, bitrate, rand3, outPath);
    var cover: seq<string> := if hasLogo then ["1:v:0"] else [];
    assert Select(Plan(inputFile, hasLogo, logoPath, outFormat, bitrate, rand3, outPath), ValuesOf("-map")) == [] + [] + ["0:a:0"] + cover + [] + [] by {
      SelectPlan(inputFile, hasLogo, logoPath, outFormat, bitrate, rand3, outPath, ValuesOf("-map"));
      InputPlanAnswers(inputFile);
      LogoInputPlanAnswers(hasLogo, logoPath);
      AudioMapPlanAnswers();
      CoverArtPlanAnswers(hasLogo);
      CodecPlanAnswers(outFormat, bitrate);
      OutputPlanAnswers(rand3, outPath);
    }
    assert ["0:a:0"] + cover == [] + [] + ["0:a:0"] + cover + [] + [];
  }

  /** Only the cover-art segment marks a picture stream as attached. */
  lemma PlanDisposition(inputFile: string, hasLogo: bool, logoPath: string, outFormat: string,
      bitrate: string, rand3: nat, outPath: string)
    ensures Opt("-disposition:v:0", "attached_pic") in Plan(inputFile, hasLogo, logoPath, outFormat, bitrate, rand3, outPath)
        <==> hasLogo
  {
    var x := Opt("-disposition:v:0", "attached_pic");
    assert x !in InputPlan(inputFile) + LogoInputPlan(hasLogo, logoPath) + AudioMapPlan by {
      assert forall a <- InputPlan(inputFile) :: a.Switch? || a.name != x.name;
    }
    assert x in CoverArtPlan(hasLogo) <==> hasLogo;
    assert x !in CodecPlan(outFormat, bitrate) by {
      assert forall a <- CodecPlan(outFormat, bitrate) :: a.name != x.name;
    }
    assert x !in OutputPlan(rand3, outPath) by {
      assert forall a <- OutputPlan(rand3, outPath) :: a.FileArg? || a.name != x.name;
    }
  }

  /**
   * The first audio stream of the video is always mapped; the picture of the
   * cover image is mapped, and marked as attached, exactly when there is one.
   */
  lemma CommandStreamMaps(inputFile: string, hasLogo: bool, logoPath: string, outFormat: string,
      bitrate: string, rand3: nat, outPath: string)
    requires !IsOptionName(outPath)
    ensures var r := Invocation(Command(inputFile, hasLogo, logoPath, outFormat, bitrate, rand3, outPath));
      && r.Some?
      && Select(r.value, ValuesOf("-map")) == ["0:a:0"] + (if hasLogo then ["1:v:0"] else [])
      && (Opt("-disposition:v:0", "attached_pic") in r.value <==> hasLogo)
  {
    CommandParses(inputFile, hasLogo, logoPath, outFormat, bitrate, rand3, outPath);
    PlanStreamMaps(inputFile, hasLogo, logoPath, outFormat, bitrate, rand3, outPath);
  }

  lemma PlanCodec(inputFile: string, hasLogo: bool, logoPath: string, outFormat: string,
      bitrate: string, rand3: nat, outPath: string)
    ensures var plan := Plan(inputFile, hasLogo, logoPath, outFormat, bitrate, rand3, outPath);
      && Select(plan, ValuesOf("-c:a")) == [CodecName(outFormat)]
      && Select(plan, ValuesOf("-b:a")) == if outFormat == "mp3" || outFormat == "m4a" then [bitrate] else []
  {
    var rate: seq<string> := if outFormat == "mp3" || outFormat == "m4a" then [bitrate] else [];
    assert Select(Plan(inputFile, hasLogo, logoPath, outFormat, bitrate, rand3, outPath), ValuesOf("-c:a")) == [] + [] + [] + [] + [CodecName(outFormat)] + [] by {
      SelectPlan(inputFile, hasLogo, logoPath, outFormat, bitrate, rand3, outPath, ValuesOf("-c:a"));
      InputPlanAnswers(inputFile);
      LogoInputPlanAnswers(hasLogo, logoPath);
      AudioMapPlanAnswers();
      CoverArtPlanAnswers(hasLogo);
      CodecPlanAnswers(outFormat, bitrate);
      OutputPlanAnswers(rand3, outPath);
    }
    assert Select(Plan(inputFile, hasLogo, logoPath, outFormat, bitrate, rand3, outPath), ValuesOf("-b:a")) == [] + [] + [] + [] + rate + [] by {
      SelectPlan(inputFile, hasLogo, logoPath, outFormat, bitrate, rand3, outPath, ValuesOf("-b:a"));
      InputPlanAnswers(inputFile);
      LogoInputPlanAnswers(hasLogo, logoPath);
      AudioMapPlanAnswers();
      CoverArtPlanAnswers(hasLogo);
      CodecPlanAnswers(outFormat, bitrate);
      OutputPlanAnswers(rand3, outPath);
    }
    assert [] + [] + [] + [] + rate + [] == rate;
  }

  /**
   * The codec follows the requested format (anything unknown becomes 16-bit
   * PCM), and a bitrate is passed for mp3 and m4a only.
   */
  lemma CommandCodec(inputFile: string, hasLogo: bool, logoPath: string, outFormat: string,
      bitrate: string, rand3: nat, outPath: string)
    requires !IsOptionName(outPath)
    ensures var r := Invocation(Command(inputFile, hasLogo, logoPath, outFormat, bitrate, rand3, outPath));
      && r.Some?
      && Select(r.value, ValuesOf("-c:a")) == [CodecName(outFormat)]
      && Select(r.value, ValuesOf("-b:a")) == if outFormat == "mp3" || outFormat == "m4a" then [bitrate] else []
  {
    CommandParses(inputFile, hasLogo, logoPath, outFormat, bitrate, rand3, outPath);
    PlanCodec(inputFile, hasLogo, logoPath, outFormat, bitrate, rand3, outPath);
  }

  /** The options that only the codec segment ever sets. */
  predicate CodecOnly(name: string) {
    name == "-compression_level" || name == "-id3v2_version" || name == "-metadata:s:v" || name == "-cutoff"
  }

  lemma PlanCodecOnly(inputFile: string, hasLogo: bool, logoPath: string, outFormat: string,
      bitrate: string, rand3: nat, outPath: string, name: string)
    requires CodecOnly(name)
    ensures Select(Plan(inputFile, hasLogo, logoPath, outFormat, bitrate, rand3, outPath), ValuesOf(name))
         == Select(CodecPlan(outFormat, bitrate), ValuesOf(name))
  {
    var q := ValuesOf(name);
    var codec := Select(CodecPlan(outFormat, bitrate), q);
    assert Select(Plan(inputFile, hasLogo, logoPath, outFormat, bitrate, rand3, outPath), q) == [] + [] + [] + [] + codec + [] by {
      SelectPlan(inputFile, hasLogo, logoPath, outFormat, bitrate, rand3, outPath, q);
      OtherSegmentsSilent(inputFile, hasLogo, logoPath, rand3, outPath, name);
    }
    assert [] + [] + [] + [] + codec + [] == codec;
  }

  lemma OtherSegmentsSilent(inputFile: string, hasLogo: bool, logoPath: string, rand3: nat, outPath: string, name: string)
    requires CodecOnly(name)
    ensures Select(InputPlan(inputFile), ValuesOf(name)) == []
    ensures Select(LogoInputPlan(hasLogo, logoPath), ValuesOf(name)) == []
    ensures Select(AudioMapPlan, ValuesOf(name)) == []
    ensures Select(CoverArtPlan(hasLogo), ValuesOf(name)) == []
    ensures Select(OutputPlan(rand3, outPath), ValuesOf(name)) == []
  {
    SelectNone(InputPlan(inputFile), ValuesOf(name));
    SelectNone(LogoInputPlan(hasLogo, logoPath), ValuesOf(name));
    SelectNone(AudioMapPlan, ValuesOf(name));
    SelectNone(CoverArtPlan(hasLogo), ValuesOf(name));
    SelectNone(OutputPlan(rand3, outPath), ValuesOf(name));
  }

  /** The extra settings of each codec branch. */
  lemma CodecPlanExtras(outFormat: string, bitrate: string)
    ensures Select(CodecPlan(outFormat, bitrate), ValuesOf("-compression_level"))
         == if outFormat == "mp3" then ["0"] else []
    ensures Select(CodecPlan(outFormat, bitrate), ValuesOf("-id3v2_version"))
         == if outFormat == "mp3" then ["3"] else []
    ensures Select(CodecPlan(outFormat, bitrate), ValuesOf("-metadata:s:v"))
         == if outFormat == "mp3" then ["title=Album cover", "comment=Cover (front)"] else []
    ensures Select(CodecPlan(outFormat, bitrate), ValuesOf("-cutoff"))
         == if outFormat == "m4a" then ["20000"] else []
  {
    if outFormat == "mp3" {
      Mp3Extras(bitrate);
    } else if outFormat == "m4a" {
      M4aExtras(bitrate);
    }
  }

  lemma Mp3Extras(bitrate: string)
    ensures Select(CodecPlan("mp3", bitrate), ValuesOf("-compression_level")) == ["0"]
    ensures Select(CodecPlan("mp3", bitrate), ValuesOf("-id3v2_version")) == ["3"]
    ensures Select(CodecPlan("mp3", bitrate), ValuesOf("-metadata:s:v")) == ["title=Album cover", "comment=Cover (front)"]
    ensures Select(CodecPlan("mp3", bitrate), ValuesOf("-cutoff")) == []
  {
    var xs := CodecPlan("mp3", bitrate);
    var q := ValuesOf("-metadata:s:v");
    SelectSingle(xs, 2, ValuesOf("-compression_level"));
    SelectSingle(xs, 3, ValuesOf("-id3v2_version"));
    SelectNone(xs, ValuesOf("-cutoff"));
    SelectNone(xs[..4], q);
    SelectAppend(xs[..4], [xs[4]], q);
    SelectAppend(xs[..4] + [xs[4]], [xs[5]], q);
    assert xs[..4] + [xs[4]] + [xs[5]] == xs;
  }

  lemma M4aExtras(bitrate: string)
    ensures Select(CodecPlan("m4a", bitrate), ValuesOf("-compression_level")) == []
    ensures Select(CodecPlan("m4a", bitrate), ValuesOf("-id3v2_version")) == []
    ensures Select(CodecPlan("m4a", bitrate), ValuesOf("-metadata:s:v")) == []
    ensures Select(CodecPlan("m4a", bitrate), ValuesOf("-cutoff")) == ["20000"]
  {
    var xs := CodecPlan("m4a", bitrate);
    SelectSingle(xs, 2, ValuesOf("-cutoff"));
    SelectNone(xs, ValuesOf("-compression_level"));
    SelectNone(xs, ValuesOf("-id3v2_version"));
    SelectNone(xs, ValuesOf("-metadata:s:v"));
  }

  /**
   * mp3 output alone gets compression level 0, ID3v2.3 tags
   * and the two cover-picture tags; m4a output alone gets the 20 kHz cutoff.
   */
  lemma CommandCodecExtras(inputFile: string, hasLogo: bool, logoPath: string, outFormat: string,
      bitrate: string, rand3: nat, outPath: string)
    requires !IsOptionName(outPath)
    ensures var r := Invocation(Command(inputFile, hasLogo, logoPath, outFormat, bitrate, rand3, outPath));
      && r.Some?
      && Select(r.value, ValuesOf("-compression_level")) == (if outFormat == "mp3" then ["0"] else [])
      && Select(r.value, ValuesOf("-id3v2_version")) == (if outFormat == "mp3" then ["3"] else [])
      && Select(r.value, ValuesOf("-metadata:s:v"))
         == (if outFormat == "mp3" then ["title=Album cover", "comment=Cover (front)"] else [])
      && Select(r.value, ValuesOf("-cutoff")) == (if outFormat == "m4a" then ["20000"] else [])
  {
    CommandParses(inputFile, hasLogo, logoPath, outFormat, bitrate, rand3, outPath);
    CodecPlanExtras(outFormat, bitrate);
    PlanCodecOnly(inputFile, hasLogo, logoPath, outFormat, bitrate, rand3, outPath, "-compression_level");
    PlanCodecOnly(inputFile, hasLogo, logoPath, outFormat, bitrate, rand3, outPath, "-id3v2_version");
    PlanCodecOnly(inputFile, hasLogo, logoPath, outFormat, bitrate, rand3, outPath, "-metadata:s:v");
    PlanCodecOnly(inputFile, hasLogo, logoPath, outFormat, bitrate, rand3, outPath, "-cutoff");
  }

  lemma PlanMetadata(inputFile: string, hasLogo: bool, logoPath: string, outFormat: string,
      bitrate: string, rand3: nat, outPath: string)
    ensures var plan := Plan(inputFile, hasLogo, logoPath, outFormat, bitrate, rand3, outPath);
      && Select(plan, ValuesOf("-metadata")) == [Title(rand3), "artist=SoniEffect", "album=SoniEffect Conversions"]
      && Switch("-y") in plan
  {
    var tags := [Title(rand3), "artist=SoniEffect", "album=SoniEffect Conversions"];
    assert Select(Plan(inputFile, hasLogo, logoPath, outFormat, bitrate, rand3, outPath), ValuesOf("-metadata")) == [] + [] + [] + [] + [] + tags by {
      SelectPlan(inputFile, hasLogo, logoPath, outFormat, bitrate, rand3, outPath, ValuesOf("-metadata"));
      InputPlanAnswers(inputFile);
      LogoInputPlanAnswers(hasLogo, logoPath);
      AudioMapPlanAnswers();
      CoverArtPlanAnswers(hasLogo);
      CodecPlanAnswers(outFormat, bitrate);
      OutputPlanMetadata(rand3, outPath);
    }
    assert Plan(inputFile, hasLogo, logoPath, outFormat, bitrate, rand3, outPath)[0] == Switch("-y");
  }

  /** The title, artist and album tags, in that order, and the overwrite switch. */
  lemma CommandMetadata(inputFile: string, hasLogo: bool, logoPath: string, outFormat: string,
      bitrate: string, rand3: nat, outPath: string)
    requires !IsOptionName(outPath)
    ensures var r := Invocation(Command(inputFile, hasLogo, logoPath, outFormat, bitrate, rand3, outPath));
      && r.Some?
      && Select(r.value, ValuesOf("-metadata")) == [Title(rand3), "artist=SoniEffect", "album=SoniEffect Conversions"]
      && Switch("-y") in r.value
  {
    CommandParses(inputFile, hasLogo, logoPath, outFormat, bitrate, rand3, outPath);
    PlanMetadata(inputFile, hasLogo, logoPath, outFormat, bitrate, rand3, outPath);
  }

  /** The title tag reads back as the three-digit random number it was given. */
  lemma TitleNumber(rand3: nat)
    requires 100 <= rand3 <= 999
    ensures var t := Title(rand3);
      |t| == 27 && t[..24] == "title=SoniEffect Audio #" && AllDigits(t[24..]) && Number(t[24..]) == rand3
  {
    var d := DecimalString(rand3);
    assert DecimalString(rand3 / 10) == DecimalString(rand3 / 100) + [DigitChar(rand3 / 10 % 10)];
    assert |d| == 3;
    assert Title(rand3)[24..] == d;
  }
}
