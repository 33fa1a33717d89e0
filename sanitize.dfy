/**
 * The two `re.sub` whitelists of the converter and the output file name
 * built from the second one.
 */
module Sanitize {
  import opened Paths

  /** The two character classes: `[a-zA-Z0-9._-]` for uploaded names, `[a-zA-Z0-9_-]` for output stems. */
  datatype CharClass = NameChars | StemChars

  predicate Allowed(cls: CharClass, c: char) {
    || ('a' <= c <= 'z')
    || ('A' <= c <= 'Z')
    || ('0' <= c <= '9')
    || c == '_'
    || c == '-'
    || (cls == NameChars && c == '.')
  }

  /** `re.sub(r'[^...]', '_', s)`: every character outside the class becomes '_'. */
  function Sanitize(s: string, cls: CharClass): (r: string)
    ensures |r| == |s|
    ensures forall i :: 0 <= i < |s| ==> Allowed(cls, r[i])
    ensures forall i :: 0 <= i < |s| && Allowed(cls, s[i]) ==> r[i] == s[i]
    ensures forall i :: 0 <= i < |s| && !Allowed(cls, s[i]) ==> r[i] == '_'
    decreases |s|
  {
    if s == [] then []
    else [if Allowed(cls, s[0]) then s[0] else '_'] + Sanitize(s[1..], cls)
  }

  /** The staged name of an upload. */
  function UploadName(filename: string): string {
    Sanitize(filename, NameChars)
  }

  /**
   * `f"SoniEffect_Converted_{stem}.{out_format}"` with the stem re-sanitised:
   * the product prefix, one whitelisted character per character of the stem,
   * a dot, and the format untouched.
   */
  function OutputFilename(stem: string, outFormat: string): (r: string)
    ensures |r| == 21 + |stem| + 1 + |outFormat|
    ensures r[..21] == "SoniEffect_Converted_"
    ensures forall i :: 21 <= i < 21 + |stem| ==> Allowed(StemChars, r[i])
    ensures r[21 + |stem|] == '.' && r[22 + |stem|..] == outFormat
  {
    "SoniEffect_Converted_" + Sanitize(stem, StemChars) + "." + outFormat
  }

  // ---------------------------------------------------------------------------
  // Properties

  /** Sanitising twice changes nothing more. */
  lemma SanitizeIdempotent(s: string, cls: CharClass)
    ensures Sanitize(Sanitize(s, cls), cls) == Sanitize(s, cls)
  {
  }

  /** A name is left alone exactly when every character is already in the class. */
  lemma SanitizeFixesExactlyAllowed(s: string, cls: CharClass)
    ensures Sanitize(s, cls) == s <==> forall i :: 0 <= i < |s| ==> Allowed(cls, s[i])
  {
    if Sanitize(s, cls) == s {
      forall i | 0 <= i < |s| ensures Allowed(cls, s[i]) {
        assert Sanitize(s, cls)[i] == s[i];
      }
    }
  }

  /** Sanitising works character by character, so it distributes over concatenation. */
  lemma {:induction false} SanitizeAppend(a: string, b: string, cls: CharClass)
    ensures Sanitize(a + b, cls) == Sanitize(a, cls) + Sanitize(b, cls)
    decreases |a|
  {
    if a != [] {
      assert (a + b)[1..] == a[1..] + b;
      SanitizeAppend(a[1..], b, cls);
    }
  }

  /** The uploaded-name class is the stem class plus '.', so a stem-clean name is upload-clean. */
  lemma StemCleanIsUploadClean(s: string)
    ensures Sanitize(Sanitize(s, StemChars), NameChars) == Sanitize(s, StemChars)
  {
    SanitizeFixesExactlyAllowed(Sanitize(s, StemChars), NameChars);
  }

  /** The output stem holds no dot and no separator. */
  lemma StemHasNoDot(stem: string)
    ensures '.' !in Sanitize(stem, StemChars)
    ensures '/' !in Sanitize(stem, StemChars)
  {
    var r := Sanitize(stem, StemChars);
    forall i | 0 <= i < |r| ensures r[i] != '.' && r[i] != '/' {
      assert Allowed(StemChars, r[i]);
    }
  }

  /** The staged name holds no separator, so it never leaves the upload directory lexically. */
  lemma UploadNameHasNoSlash(filename: string)
    ensures '/' !in UploadName(filename)
  {
    var r := UploadName(filename);
    forall i | 0 <= i < |r| ensures r[i] != '/' {
      assert Allowed(NameChars, r[i]);
    }
  }

  /**
   * The output name splits back into the product prefix with the
   * sanitised stem, and the requested format as its suffix, whenever the
   * format is a plain extension.
   */
  lemma OutputFilenameSplits(stem: string, outFormat: string)
    requires outFormat != "" && '.' !in outFormat && '/' !in outFormat
    ensures IsComponent(OutputFilename(stem, outFormat))
    ensures Stem(OutputFilename(stem, outFormat)) == "SoniEffect_Converted_" + Sanitize(stem, StemChars)
    ensures Suffix(OutputFilename(stem, outFormat)) == "." + outFormat
  {
    StemHasNoDot(stem);
    assert '.' !in "SoniEffect_Converted_" && '/' !in "SoniEffect_Converted_";
    SplitAtDot("SoniEffect_Converted_" + Sanitize(stem, StemChars), outFormat);
  }

  /**
   * Whatever the format, as long as it holds no separator the output name is
   * one path component, and never `..`.
   */
  lemma OutputFilenameIsComponent(stem: string, outFormat: string)
    requires '/' !in outFormat
    ensures IsComponent(OutputFilename(stem, outFormat))
    ensures OutputFilename(stem, outFormat) != ".."
  {
    var prefix := "SoniEffect_Converted_";
    var name := OutputFilename(stem, outFormat);
    StemHasNoDot(stem);
    assert '/' !in prefix;
    assert |name| > 2;
    forall i | 0 <= i < |name| ensures name[i] != '/' {
      if i >= |prefix + Sanitize(stem, StemChars) + "."| {
        assert name[i] == outFormat[i - |prefix + Sanitize(stem, StemChars) + "."|];
      }
    }
  }
}
