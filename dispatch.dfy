/**
 * The tool's entry point: the subcommand names it reserves, and the choice between
 * conversion and compression by extension when the first argument is an existing file.
 */
module Dispatch {
  import opened Wrappers
  import opened Paths
  import opened Formats
  import opened Heic
  import opened CompressCli

  /**
   * What the entry point does. The two handlers read the argument list they are given
   * as `os.Args`; the two rejections print an `error_` line and then the usage text.
   */
  datatype Command =
    | ShowUsage
    | RunHeic2Jpg(args: seq<string>)
    | RunCompress(args: seq<string>)
    | RejectUnsupportedFile
    | RejectUnknown

  /** The names matched before any file-existence check. */
  predicate Reserved(name: string)
  {
    name == "heic2jpg" || name == "compress" || name == "help"
  }

  /** `append(os.Args[:1], os.Args[2:]...)`: the argument list without element 1. */
  function WithoutSubcommand(args: seq<string>): (r: seq<string>)
    requires |args| >= 2
    ensures |r| == |args| - 1 && r[0] == args[0]
    ensures forall k :: 1 <= k < |r| ==> r[k] == args[k + 1]
  {
    args[..1] + args[2..]
  }

  /** The decision of the entry point; `firstExists` is whether `args[1]` names an existing file. */
  function DispatchCommand(args: seq<string>, firstExists: bool): Command
  {
    if |args| < 2 then ShowUsage
    else
      var sub := args[1];
      if sub == "heic2jpg" then RunHeic2Jpg(WithoutSubcommand(args))
      else if sub == "compress" then RunCompress(WithoutSubcommand(args))
      else if sub == "help" then ShowUsage
      else if firstExists then
        var ext := Lower(Ext(sub));
        if ext == ".heic" then RunHeic2Jpg(args)
        else if ext == ".jpg" || ext == ".jpeg" || ext == ".png" || ext == ".gif" then RunCompress(args)
        else RejectUnsupportedFile
      else RejectUnknown
  }

  /**
   * Without a subcommand the usage is shown; "heic2jpg" and "compress" run their handler
   * on the argument list without the subcommand, and "help" shows the usage.
   */
  lemma ReservedMapping(args: seq<string>, firstExists: bool)
    ensures |args| < 2 ==> DispatchCommand(args, firstExists) == ShowUsage
    ensures |args| >= 2 && args[1] == "heic2jpg" ==>
              DispatchCommand(args, firstExists) == RunHeic2Jpg(WithoutSubcommand(args))
    ensures |args| >= 2 && args[1] == "compress" ==>
              DispatchCommand(args, firstExists) == RunCompress(WithoutSubcommand(args))
    ensures |args| >= 2 && args[1] == "help" ==> DispatchCommand(args, firstExists) == ShowUsage
  {
  }

  /** A reserved name is dispatched the same way whether or not a file of that name exists. */
  lemma ReservedBeforeExistence(args: seq<string>)
    requires |args| >= 2 && Reserved(args[1])
    ensures DispatchCommand(args, true) == DispatchCommand(args, false)
    ensures !DispatchCommand(args, true).RejectUnknown? && !DispatchCommand(args, true).RejectUnsupportedFile?
  {
  }

  /**
   * An argument that is neither reserved nor an existing file is an unknown command;
   * an existing one goes to a handler with the argument list unchanged, or is rejected.
   */
  lemma AutoDispatch(args: seq<string>, firstExists: bool)
    requires |args| >= 2 && !Reserved(args[1])
    ensures var c := DispatchCommand(args, firstExists);
            && (c == RejectUnknown <==> !firstExists)
            && (c.RunHeic2Jpg? || c.RunCompress? ==> firstExists && c.args == args)
            && (firstExists ==> (c.RunCompress? <==> IsSupportedFormat(args[1])))
            && (firstExists ==> (c.RunHeic2Jpg? <==> Lower(Ext(args[1])) == ".heic"))
            && (firstExists && !IsSupportedFormat(args[1]) && Lower(Ext(args[1])) != ".heic" ==>
                  c == RejectUnsupportedFile)
  {
  }

  /**
   * A path the entry point hands to compression passes the compressor's own input
   * checks when it is also the first positional argument.
   */
  lemma DispatchedPathIsAccepted(args: seq<string>, flags: Flags, rest: seq<string>)
    requires |args| >= 2 && !Reserved(args[1]) && DispatchCommand(args, true).RunCompress?
    ensures PlanCompressCli(flags, [args[1]] + rest, true).Run?
  {
  }

  /**
   * The entry point lower-cases the extension but the converter does not: "photo.Heic"
   * is sent to the converter, which rejects it.
   */
  lemma CaseMismatch()
    ensures var args := ["img", "photo.Heic", "photo.jpg"];
            && DispatchCommand(args, true) == RunHeic2Jpg(args)
            && CheckHeicArgs(args, true) == Some(InputNotHeic)
  {
    assert Ext("photo.Heic") == ".Heic" by {
      ExtOfNewExtension("photo", "Heic");
      assert "photo" + "." + "Heic" == "photo.Heic";
    }
    assert Lower(".Heic") == ".heic";
    assert !HeicExtension(".Heic") by {
      assert ".Heic"[1] != ".heic"[1] && ".Heic"[2] != ".HEIC"[2];
    }
  }

  /** A bare HEIC path with no output path is sent to the converter, which reports too few arguments. */
  lemma MissingOutput()
    ensures var args := ["img", "photo.heic"];
            && DispatchCommand(args, true) == RunHeic2Jpg(args)
            && CheckHeicArgs(args, true) == Some(TooFewArgs)
  {
    assert Ext("photo.heic") == ".heic" by {
      ExtOfNewExtension("photo", "heic");
      assert "photo" + "." + "heic" == "photo.heic";
    }
    assert Lower(".heic") == ".heic";
  }
}
