/**
 * Image formats by name: the closed set the encoder switch accepts, the checks on
 * file extensions, and the priority order that picks the output format.
 */
module Formats {
  import opened Wrappers
  import opened Paths

  datatype Format = Jpeg | Png | Gif

  /** The cases of the encoder switch: names are compared exactly, so "JPG" is not a format. */
  function ParseFormat(name: string): (f: Option<Format>)
    ensures f.Some? <==> name in {"jpg", "jpeg", "png", "gif"}
    ensures f == Some(Jpeg) <==> name == "jpg" || name == "jpeg"
    ensures f == Some(Png) <==> name == "png"
    ensures f == Some(Gif) <==> name == "gif"
  {
    if name == "jpg" || name == "jpeg" then Some(Jpeg)
    else if name == "png" then Some(Png)
    else if name == "gif" then Some(Gif)
    else None
  }

  /** `IsSupportedFormat`: the lower-cased extension is one of the four image extensions. */
  predicate IsSupportedFormat(filename: string)
  {
    Lower(Ext(filename)) in {".jpg", ".jpeg", ".png", ".gif"}
  }

  /** `GetFormatFromPath`: the lower-cased extension without its dot. */
  function GetFormatFromPath(path: string): string
  {
    TrimPrefix(Lower(Ext(path)), ".")
  }

  /**
   * The output format name `CompressImage` switches on: the explicit option, else the
   * extension of the output path (dot removed, then lower-cased), else the name the
   * decoder reported for the input.
   */
  function SelectOutputFormat(option: string, outputPath: string, decoded: string): string
  {
    if option != "" then option
    else
      var fromPath := Lower(TrimPrefix(Ext(outputPath), "."));
      if fromPath != "" then fromPath else decoded
  }

  lemma LowerKeepsLeadingDot(s: string)
    requires s != "" && s[0] == '.'
    ensures Lower(s) == "." + Lower(s[1..])
  {
    assert Lower(s)[0] == '.';
    assert Lower(s)[1..] == Lower(s[1..]);
  }

  /** Removing the dot and lower-casing commute on an extension. */
  lemma PathFormatCommutes(path: string)
    ensures Lower(TrimPrefix(Ext(path), ".")) == GetFormatFromPath(path)
  {
    var e := Ext(path);
    if e != "" {
      LowerKeepsLeadingDot(e);
      assert e[..1] == ".";
      assert Lower(e)[..1] == ".";
    }
  }

  lemma DotNameIff(l: string, dotted: string)
    requires l != "" && l[0] == '.' && dotted != "" && dotted[0] == '.'
    ensures l == dotted <==> l[1..] == dotted[1..]
  {
    if l[1..] == dotted[1..] {
      assert l == [l[0]] + l[1..];
      assert dotted == [dotted[0]] + dotted[1..];
    }
  }

  /** The input check and the encoder switch agree on what a supported path is. */
  lemma SupportedIffParsable(path: string)
    ensures IsSupportedFormat(path) <==> ParseFormat(GetFormatFromPath(path)).Some?
  {
    var e := Ext(path);
    if e != "" {
      LowerKeepsLeadingDot(e);
      var l := Lower(e);
      assert l[..1] == ".";
      assert GetFormatFromPath(path) == l[1..];
      DotNameIff(l, ".jpg");
      DotNameIff(l, ".jpeg");
      DotNameIff(l, ".png");
      DotNameIff(l, ".gif");
      assert ".jpg"[1..] == "jpg" && ".jpeg"[1..] == "jpeg";
      assert ".png"[1..] == "png" && ".gif"[1..] == "gif";
    }
  }

  /** The three sources of the output format, in priority order. */
  lemma SelectionPriority(option: string, outputPath: string, decoded: string)
    ensures option != "" ==> SelectOutputFormat(option, outputPath, decoded) == option
    ensures option == "" && GetFormatFromPath(outputPath) != "" ==>
              SelectOutputFormat(option, outputPath, decoded) == GetFormatFromPath(outputPath)
    ensures option == "" && GetFormatFromPath(outputPath) == "" ==>
              SelectOutputFormat(option, outputPath, decoded) == decoded
  {
    PathFormatCommutes(outputPath);
  }

  /** Upper-case names reach the switch unchanged from the option, but are lower-cased from a path. */
  lemma CaseSensitivity()
    ensures ParseFormat(SelectOutputFormat("JPG", "out.png", "png")) == None
    ensures ParseFormat(SelectOutputFormat("", "out.JPG", "png")) == Some(Jpeg)
  {
    ExtOfNewExtension("out", "JPG");
    assert "out" + "." + "JPG" == "out.JPG";
    assert TrimPrefix(".JPG", ".") == "JPG";
    assert Lower("JPG") == "jpg";
  }
}
