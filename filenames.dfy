/** Which directory entries are converted, and where each result is saved. File names are
    the bytes of their UTF-8 encoding, as Rust's `String` holds them. */
module FileNames {
  import opened Pixels

  /** The bytes of an ASCII string literal. */
  function Ascii(s: string): seq<Byte>
    requires forall i :: 0 <= i < |s| ==> s[i] as int < 128
  {
    seq(|s|, i requires 0 <= i < |s| => s[i] as int)
  }

  const Jpg: seq<Byte> := Ascii(".jpg")
  const Jpeg: seq<Byte> := Ascii(".jpeg")
  const Png: seq<Byte> := Ascii(".png")
  const Separator: seq<Byte> := Ascii("/")
  const OutputSuffix: seq<Byte> := Ascii("_output.jpg")

  /** The number of leading bytes of the input name kept in the output name. */
  const PrefixLength: nat := 4

  /** `str::ends_with`: the last `|suffix|` bytes of `s` are `suffix`. */
  predicate EndsWith(s: seq<Byte>, suffix: seq<Byte>)
  {
    |suffix| <= |s| && s[|s| - |suffix|..] == suffix
  }

  /** `s` ends with `suffix` exactly when `s` is some stem followed by `suffix`. */
  lemma EndsWithIff(s: seq<Byte>, suffix: seq<Byte>)
    ensures EndsWith(s, suffix) <==> exists stem :: stem + suffix == s
  {
    if EndsWith(s, suffix) {
      var stem := s[..|s| - |suffix|];
      assert stem + suffix == s;
    }
    if exists stem :: stem + suffix == s {
      var stem :| stem + suffix == s;
      assert s[|s| - |suffix|..] == suffix;
    }
  }

  /** A name ending with a non-empty suffix ends with the suffix's last byte. */
  lemma EndsWithLast(s: seq<Byte>, suffix: seq<Byte>)
    requires EndsWith(s, suffix) && |suffix| > 0
    ensures s[|s| - 1] == suffix[|suffix| - 1]
  {
    assert s[|s| - 1] == s[|s| - |suffix|..][|suffix| - 1];
  }

  /** The filter of the input directory's entries: only these names are opened. */
  predicate IsImageName(name: seq<Byte>)
  {
    EndsWith(name, Jpg) || EndsWith(name, Jpeg) || EndsWith(name, Png)
  }

  /** A name is converted exactly when it is some stem followed by `.jpg`, `.jpeg` or `.png`;
      every other entry is skipped. */
  lemma IsImageNameIff(name: seq<Byte>)
    ensures IsImageName(name) <==>
      exists stem :: stem + Jpg == name || stem + Jpeg == name || stem + Png == name
  {
    EndsWithIff(name, Jpg);
    EndsWithIff(name, Jpeg);
    EndsWithIff(name, Png);
    if exists stem :: stem + Jpg == name || stem + Jpeg == name || stem + Png == name {
      var stem :| stem + Jpg == name || stem + Jpeg == name || stem + Png == name;
    }
  }

  /** The comparison is case-sensitive: upper-case extensions are skipped. */
  lemma UpperCaseExtensionsSkipped(stem: seq<Byte>, ext: seq<Byte>)
    requires ext == Ascii(".JPG") || ext == Ascii(".JPEG") || ext == Ascii(".PNG")
    ensures !IsImageName(stem + ext)
  {
    var name := stem + ext;
    assert name[|name| - 1] == 'G' as int;
    if EndsWith(name, Jpg) { EndsWithLast(name, Jpg); }
    if EndsWith(name, Jpeg) { EndsWithLast(name, Jpeg); }
    if EndsWith(name, Png) { EndsWithLast(name, Png); }
  }

  /** Every accepted name has at least `PrefixLength` bytes, since each suffix alone has four. */
  lemma ImageNamesAreLongEnough(name: seq<Byte>)
    requires IsImageName(name)
    ensures |name| >= PrefixLength
  {
  }

  /** Why `&file_name[..4]` panics. */
  datatype SliceError = OutOfBounds | NotCharBoundary

  /** A formatted output path, or the panic that aborts the run instead. */
  datatype PathResult = Path(bytes: seq<Byte>) | Panic(error: SliceError)

  /** `str::is_char_boundary(i)`: `i` is 0, the length, or the index of a byte that does not
      continue a multi-byte UTF-8 sequence (continuation bytes are 0x80 to 0xBF). */
  predicate IsCharBoundary(s: seq<Byte>, i: nat)
  {
    if i == 0 then true
    else if i >= |s| then i == |s|
    else !(0x80 <= s[i] < 0xC0)
  }

  /** `format!("{}/{}_output.jpg", output_folder, &file_name[..4])`. */
  function OutputPath(folder: seq<Byte>, name: seq<Byte>): (r: PathResult)
    ensures r.Path? <==> |name| >= PrefixLength && IsCharBoundary(name, PrefixLength)
    ensures r.Panic? ==> (r.error == OutOfBounds <==> |name| < PrefixLength)
  {
    if |name| < PrefixLength then Panic(OutOfBounds)
    else if !IsCharBoundary(name, PrefixLength) then Panic(NotCharBoundary)
    else Path(folder + Separator + name[..PrefixLength] + OutputSuffix)
  }

  /** The output path can be taken apart again: the folder, one `/`, the first four bytes
      of the input name, and `_output.jpg`. */
  lemma OutputPathLayout(folder: seq<Byte>, name: seq<Byte>)
    requires OutputPath(folder, name).Path?
    ensures var p := OutputPath(folder, name).bytes;
      |p| == |folder| + 1 + PrefixLength + |OutputSuffix| &&
      p[..|folder|] == folder && p[|folder|] == '/' as int &&
      p[|folder| + 1..|folder| + 1 + PrefixLength] == name[..PrefixLength] &&
      p[|folder| + 1 + PrefixLength..] == OutputSuffix
  {
    var p := OutputPath(folder, name).bytes;
    assert p == folder + Separator + name[..PrefixLength] + OutputSuffix;
    assert p[|folder| + 1..|folder| + 1 + PrefixLength] == name[..PrefixLength];
  }

  /** The output name is determined by the first four bytes alone: two inputs that share
      them are saved to the same path, the later overwriting the earlier. */
  lemma OutputPathCollides(folder: seq<Byte>, a: seq<Byte>, b: seq<Byte>)
    requires |a| >= PrefixLength && |b| >= PrefixLength && a[..PrefixLength] == b[..PrefixLength]
    requires OutputPath(folder, a).Path? && OutputPath(folder, b).Path?
    ensures OutputPath(folder, a) == OutputPath(folder, b)
  {
  }

  /** Every output path ends in `.jpg`, so it is itself a name the filter would accept. */
  lemma OutputPathIsJpg(folder: seq<Byte>, name: seq<Byte>)
    requires OutputPath(folder, name).Path?
    ensures EndsWith(OutputPath(folder, name).bytes, Jpg)
    ensures IsImageName(OutputPath(folder, name).bytes)
  {
    var p := OutputPath(folder, name).bytes;
    OutputPathLayout(folder, name);
    assert p[|p| - 4..] == OutputSuffix[|OutputSuffix| - 4..];
  }

  /** An accepted name never hits the out-of-bounds panic; it can still hit the
      char-boundary panic, as `abcé.png` (byte 4 continues `é`) does. */
  lemma AcceptedNamesPanicOnlyMidCharacter(folder: seq<Byte>, name: seq<Byte>)
    requires IsImageName(name)
    ensures OutputPath(folder, name) != Panic(OutOfBounds)
    ensures var abce := [0x61, 0x62, 0x63, 0xC3, 0xA9] + Png;
      IsImageName(abce) && OutputPath(folder, abce) == Panic(NotCharBoundary)
  {
    var abce: seq<Byte> := [0x61, 0x62, 0x63, 0xC3, 0xA9] + Png;
    assert abce[|abce| - |Png|..] == Png;
    assert abce[PrefixLength] == 0xA9;
  }

  /** `test1.png` is converted and saved as `test_output.jpg` in the output folder. */
  lemma Test1Saved(folder: seq<Byte>)
    ensures IsImageName(Ascii("test1.png"))
    ensures OutputPath(folder, Ascii("test1.png")) == Path(folder + Ascii("/test_output.jpg"))
  {
    var name := Ascii("test1.png");
    assert name[|name| - |Png|..] == Png;
    assert name[..PrefixLength] == Ascii("test");
    assert Separator + Ascii("test") + OutputSuffix == Ascii("/test_output.jpg");
    assert folder + Separator + Ascii("test") + OutputSuffix == folder + (Separator + Ascii("test") + OutputSuffix);
  }
}
