/**
 * The file names the builder derives: the zero-padded size label of a PNG
 * variant, the fixed names of the ICO, the intermediate PNG and the zip
 * archive, and the base name under which a file enters the archive.
 */
module Filenames {
  import opened ImageDefinitions

  predicate IsDigit(c: char) { '0' <= c <= '9' }

  predicate AllDigits(s: string) { forall k :: 0 <= k < |s| ==> IsDigit(s[k]) }

  function DigitChar(d: int): (c: char)
    requires 0 <= d < 10
    ensures IsDigit(c) && c as int - '0' as int == d
  {
    ('0' as int + d) as char
  }

  function DigitValue(c: char): (d: int)
    requires IsDigit(c)
    ensures 0 <= d < 10
  {
    c as int - '0' as int
  }

  /** Decimal notation of a natural number: digits only, no leading zero. */
  function NatToString(n: nat): string
    decreases n
  {
    if n < 10 then [DigitChar(n)] else NatToString(n / 10) + [DigitChar(n % 10)]
  }

  /** The decimal notation is a non-empty string of digits with no leading zero. */
  lemma {:induction false} NatToStringDigits(n: nat)
    ensures var s := NatToString(n);
      1 <= |s| && AllDigits(s) && (|s| > 1 ==> s[0] != '0')
    decreases n
  {
    if n >= 10 {
      NatToStringDigits(n / 10);
    }
  }

  /** The conversion of an integer to a string: a minus sign, then the digits. */
  function IntToString(n: int): string
  {
    if n < 0 then "-" + NatToString(-n) else NatToString(n)
  }

  /** The value of a string of decimal digits, leading zeros allowed. */
  function DecimalValue(s: string): nat
    requires AllDigits(s)
    decreases |s|
  {
    if s == [] then 0 else 10 * DecimalValue(s[..|s| - 1]) + DigitValue(s[|s| - 1])
  }

  /** Reading back the decimal notation of `n` gives `n`. */
  lemma {:induction false} DecimalValueOfNatToString(n: nat)
    ensures AllDigits(NatToString(n)) && DecimalValue(NatToString(n)) == n
    decreases n
  {
    NatToStringDigits(n);
    if n >= 10 {
      NatToStringDigits(n / 10);
      DecimalValueOfNatToString(n / 10);
      var s := NatToString(n);
      assert s[..|s| - 1] == NatToString(n / 10);
    }
  }

  /** A string of zeros is worth nothing. */
  lemma {:induction false} ZerosAreWorthNothing(z: string)
    requires forall k :: 0 <= k < |z| ==> z[k] == '0'
    ensures AllDigits(z) && DecimalValue(z) == 0
  {
    if z != [] {
      ZerosAreWorthNothing(z[..|z| - 1]);
    }
  }

  /** Leading zeros do not change the value of a string of digits. */
  lemma {:induction false} LeadingZerosKeepValue(z: string, s: string)
    requires forall k :: 0 <= k < |z| ==> z[k] == '0'
    requires AllDigits(s)
    ensures AllDigits(z + s) && DecimalValue(z + s) == DecimalValue(s)
  {
    ZerosAreWorthNothing(z);
    if s == [] {
      assert z + s == z;
    } else {
      LeadingZerosKeepValue(z, s[..|s| - 1]);
      assert (z + s)[..|z + s| - 1] == z + s[..|s| - 1];
    }
  }

  /**
   * Left padding to `width` characters with `pad`: a string at least
   * `width` long is returned as it is; a shorter one gets pad characters in
   * front until it is exactly `width` long.
   */
  function PadLeft(s: string, width: int, pad: char): string
    decreases width - |s|
  {
    if width <= |s| then s else PadLeft([pad] + s, width, pad)
  }

  /**
   * The padded string is `width` long (or `s` itself when `s` is at least
   * that long), ends with `s`, and has only pad characters in front of it.
   */
  lemma {:induction false} PadLeftShape(s: string, width: int, pad: char)
    ensures var r := PadLeft(s, width, pad);
      && |r| == (if |s| < width then width else |s|)
      && r[|r| - |s|..] == s
      && forall k :: 0 <= k < |r| - |s| ==> r[k] == pad
    decreases width - |s|
  {
    if |s| < width {
      var longer := [pad] + s;
      PadLeftShape(longer, width, pad);
      var r := PadLeft(longer, width, pad);
      assert r == PadLeft(s, width, pad);
      var tail := r[|r| - |longer|..];
      assert tail == longer;
      assert r[|r| - |s|..] == tail[1..];
      assert r[|r| - |s| - 1] == tail[0] == pad;
    }
  }

  /** The decimal notation of a number below 1000 has at most three digits. */
  lemma NatToStringBelowThousand(n: nat)
    requires n < 1000
    ensures |NatToString(n)| <= 3
  {
    if n >= 10 {
      assert |NatToString(n / 10)| <= 2 by {
        if n / 10 >= 10 {
          assert |NatToString(n / 10 / 10)| == 1;
        }
      }
    }
  }

  /** The size part of a PNG file name: the size zero-padded to three characters. */
  function SizeLabel(size: int): string
  {
    PadLeft(IntToString(size), 3, '0')
  }

  /**
   * For a size from 0 to 999 the label is exactly three digits and reads
   * back as the size, so different sizes get different labels.
   */
  lemma SizeLabelEncodesSize(size: int)
    requires 0 <= size <= 999
    ensures |SizeLabel(size)| == 3 && AllDigits(SizeLabel(size))
    ensures DecimalValue(SizeLabel(size)) == size
  {
    var s := NatToString(size);
    var r := SizeLabel(size);
    NatToStringBelowThousand(size);
    NatToStringDigits(size);
    PadLeftShape(s, 3, '0');
    assert r == r[..|r| - |s|] + s;
    LeadingZerosKeepValue(r[..|r| - |s|], s);
    DecimalValueOfNatToString(size);
  }

  /** Labels of two catalog-sized variants are equal only for equal sizes. */
  lemma SizeLabelInjective(a: int, b: int)
    requires 0 <= a <= 999 && 0 <= b <= 999
    ensures SizeLabel(a) == SizeLabel(b) <==> a == b
  {
    SizeLabelEncodesSize(a);
    SizeLabelEncodesSize(b);
  }

  /** Four labels the catalog produces, written out. */
  lemma SizeLabelExamples()
    ensures SizeLabel(57) == "057"
    ensures SizeLabel(76) == "076"
    ensures SizeLabel(192) == "192"
    ensures SizeLabel(310) == "310"
  {
    assert NatToString(7) == "7";
    assert NatToString(76) == "76";
    assert NatToString(1) == "1";
    assert NatToString(19) == "19";
    assert NatToString(192) == "192";
    assert NatToString(5) == "5";
    assert NatToString(57) == "57";
    assert NatToString(3) == "3";
    assert NatToString(31) == "31";
    assert NatToString(310) == "310";
  }

  /**
   * The file a variant is written to: the temporary directory, the prefix,
   * a dash, the size label and ".png", concatenated with nothing in
   * between; in particular no separator is put after the directory.
   */
  function OutputFilename(tmpPath: string, d: ImageDefinition): string
  {
    tmpPath + d.GetOutputFilenamePrefix() + "-" + SizeLabel(d.GetSize()) + ".png"
  }

  /** Where the parts of a name built as `tmpPath + prefix + "-" + sizeLabel + ".png"` sit. */
  lemma NameParts(tmpPath: string, prefix: string, sizeLabel: string)
    requires |sizeLabel| == 3
    ensures var f := tmpPath + prefix + "-" + sizeLabel + ".png";
      && |f| >= |tmpPath| + 8
      && f[..|tmpPath|] == tmpPath
      && f[|f| - 4..] == ".png"
      && f[|f| - 7..|f| - 4] == sizeLabel
  {
    var f := tmpPath + prefix + "-" + sizeLabel + ".png";
    assert f == tmpPath + (prefix + "-" + sizeLabel + ".png");
  }

  /**
   * A variant's file name starts with the directory, ends with ".png", and
   * holds the size label just before that ending.
   */
  lemma OutputFilenameParts(tmpPath: string, d: ImageDefinition)
    requires 0 <= d.GetSize() <= 999
    ensures var f := OutputFilename(tmpPath, d);
      && |f| >= |tmpPath| + 8
      && f[..|tmpPath|] == tmpPath
      && f[|f| - 4..] == ".png"
      && f[|f| - 7..|f| - 4] == SizeLabel(d.GetSize())
  {
    SizeLabelEncodesSize(d.GetSize());
    NameParts(tmpPath, d.GetOutputFilenamePrefix(), SizeLabel(d.GetSize()));
  }

  /** Variants of different sizes (0 to 999) never share a file name. */
  lemma OutputFilenamesDiffer(tmpPath: string, d1: ImageDefinition, d2: ImageDefinition)
    requires 0 <= d1.GetSize() <= 999 && 0 <= d2.GetSize() <= 999
    requires d1.GetSize() != d2.GetSize()
    ensures OutputFilename(tmpPath, d1) != OutputFilename(tmpPath, d2)
  {
    OutputFilenameParts(tmpPath, d1);
    OutputFilenameParts(tmpPath, d2);
    SizeLabelInjective(d1.GetSize(), d2.GetSize());
  }

  /** Joining the parts of three catalog file names after any directory. */
  lemma JoinedNames(tmpPath: string)
    ensures tmpPath + "apple-touch-icon" + "-" + "057" + ".png" == tmpPath + "apple-touch-icon-057.png"
    ensures tmpPath + "apple-touch-icon" + "-" + "076" + ".png" == tmpPath + "apple-touch-icon-076.png"
    ensures tmpPath + "favicon" + "-" + "192" + ".png" == tmpPath + "favicon-192.png"
  {
    assert tmpPath + "apple-touch-icon" + "-" + "057" + ".png"
      == tmpPath + ("apple-touch-icon" + "-" + "057" + ".png");
    assert tmpPath + "apple-touch-icon" + "-" + "076" + ".png"
      == tmpPath + ("apple-touch-icon" + "-" + "076" + ".png");
    assert tmpPath + "favicon" + "-" + "192" + ".png"
      == tmpPath + ("favicon" + "-" + "192" + ".png");
  }

  /** File names of three catalog variants, written out: the size is zero-padded to three digits. */
  lemma OutputFilenameExamples(tmpPath: string, d57: ImageDefinition, d76: ImageDefinition, d192: ImageDefinition)
    requires d57.GetSize() == 57 && d57.GetOutputFilenamePrefix() == "apple-touch-icon"
    requires d76.GetSize() == 76 && d76.GetOutputFilenamePrefix() == "apple-touch-icon"
    requires d192.GetSize() == 192 && d192.GetOutputFilenamePrefix() == "favicon"
    ensures OutputFilename(tmpPath, d57) == tmpPath + "apple-touch-icon-057.png"
    ensures OutputFilename(tmpPath, d76) == tmpPath + "apple-touch-icon-076.png"
    ensures OutputFilename(tmpPath, d192) == tmpPath + "favicon-192.png"
  {
    assert OutputFilename(tmpPath, d57) == tmpPath + "apple-touch-icon" + "-" + "057" + ".png" by {
      SizeLabelExamples();
    }
    assert OutputFilename(tmpPath, d76) == tmpPath + "apple-touch-icon" + "-" + "076" + ".png" by {
      SizeLabelExamples();
    }
    assert OutputFilename(tmpPath, d192) == tmpPath + "favicon" + "-" + "192" + ".png" by {
      SizeLabelExamples();
    }
    JoinedNames(tmpPath);
  }

  /** Where the ICO composite is saved. */
  function IcoFilePath(tmpPath: string): string { tmpPath + "favicon.ico" }

  /** The intermediate PNG the ICO composite is made from. */
  function TemporaryPngPath(tmpPath: string): string { tmpPath + "temp.png" }

  /** Where the zip archive is created. */
  function ZipFilePath(tmpPath: string): string { tmpPath + "faviconCollection.zip" }

  /** The ICO path is never the file name of a PNG variant. */
  lemma IcoPathIsNoVariantPath(tmpPath: string, d: ImageDefinition)
    ensures IcoFilePath(tmpPath) != OutputFilename(tmpPath, d)
  {
    var f := OutputFilename(tmpPath, d);
    var ico := IcoFilePath(tmpPath);
    assert f[|f| - 1] == 'g';
    assert ico[|ico| - 1] == 'o';
  }

  /**
   * The base name of a path: what follows its last '/', or the whole path
   * when it has none.
   */
  function Basename(path: string): string
    decreases |path|
  {
    if path == [] || path[|path| - 1] == '/' then []
    else Basename(path[..|path| - 1]) + [path[|path| - 1]]
  }

  /**
   * The base name holds no '/', ends the path, and is preceded by a '/'
   * unless it is the whole path.
   */
  lemma {:induction false} BasenameShape(path: string)
    ensures var name := Basename(path);
      && '/' !in name
      && |name| <= |path| && path[|path| - |name|..] == name
      && (|name| < |path| ==> path[|path| - |name| - 1] == '/')
    decreases |path|
  {
    if path != [] && path[|path| - 1] != '/' {
      var front := path[..|path| - 1];
      BasenameShape(front);
      var name := Basename(path);
      assert name == Basename(front) + [path[|path| - 1]];
      assert path == front + [path[|path| - 1]];
    }
  }

  /**
   * Appending a name without '/' to a path extends its base name by that
   * name: the base name of a file placed in a directory given without a
   * trailing '/' starts with the directory's last component.
   */
  lemma {:induction false} BasenameAppend(path: string, name: string)
    requires '/' !in name
    ensures Basename(path + name) == Basename(path) + name
    decreases |name|
  {
    if name == [] {
      assert path + name == path;
    } else {
      var front := name[..|name| - 1];
      assert (path + name)[..|path + name| - 1] == path + front;
      BasenameAppend(path, front);
      assert name == front + [name[|name| - 1]];
    }
  }

  /** A name appended after a '/' (or to nothing) is the base name of the result. */
  lemma {:induction false} BasenameAfterSeparator(dir: string, name: string)
    requires dir == [] || dir[|dir| - 1] == '/'
    requires '/' !in name
    ensures Basename(dir + name) == name
    decreases |name|
  {
    if name == [] {
      assert dir + name == dir;
    } else {
      var front := name[..|name| - 1];
      assert (dir + name)[..|dir + name| - 1] == dir + front;
      BasenameAfterSeparator(dir, front);
      assert name == front + [name[|name| - 1]];
    }
  }

  /**
   * Names are joined to the directory with no separator: for a directory
   * given as "/tmp" the ICO lands next to it, as "/tmpfavicon.ico", and its
   * base name carries the directory's last component.
   */
  lemma DirectoryWithoutTrailingSlash()
    ensures Basename("/tmp") == "tmp"
    ensures IcoFilePath("/tmp") == "/tmpfavicon.ico"
    ensures Basename(IcoFilePath("/tmp")) == "tmpfavicon.ico"
  {
    TmpBasename();
    BasenameAppend("/tmp", "favicon.ico");
  }

  /** The base name of "/tmp" is its last component. */
  lemma TmpBasename()
    ensures Basename("/tmp") == "tmp"
  {
    assert "/tmp" == "/" + "tmp";
    BasenameAfterSeparator("/", "tmp");
  }
}
