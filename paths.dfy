/**
 * The string helpers of Go's standard library that the command line tools use on
 * file names: `filepath.Ext` on slash-separated paths, `strings.ToLower` on ASCII,
 * `strings.TrimPrefix` and `strings.TrimSuffix`.
 */
module Paths {

  /** A character that neither starts an extension nor separates path elements. */
  predicate PlainChar(c: char)
  {
    c != '.' && c != '/'
  }

  predicate IsSuffix(e: string, s: string)
  {
    |e| <= |s| && s[|s| - |e|..] == e
  }

  /** Every '.' of the path is followed, later on, by a '/': the last element has no dot. */
  predicate DotsAllBeforeSeparator(path: string)
  {
    forall k :: 0 <= k < |path| && path[k] == '.' ==> '/' in path[k + 1..]
  }

  /**
   * `filepath.Ext`: the suffix that starts at the last '.' of the last path element,
   * or "" when that element has no '.'. It is "" or a dot followed by plain
   * characters, and it is "" only when every dot of the path lies before some
   * separator; with ExtIsSuffix this determines the result.
   */
  function Ext(path: string): (e: string)
    ensures e == "" || (e[0] == '.' && forall k :: 1 <= k < |e| ==> PlainChar(e[k]))
    ensures e == "" ==> DotsAllBeforeSeparator(path)
  {
    if path == "" then ""
    else
      var c := path[|path| - 1];
      if c == '/' then ""
      else if c == '.' then "."
      else
        var e := Ext(path[..|path| - 1]);
        if e == "" then "" else e + [c]
  }

  function LowerChar(c: char): char
  {
    if 'A' <= c <= 'Z' then (c as int + 32) as char else c
  }

  /** `strings.ToLower`, for ASCII letters. */
  function Lower(s: string): (r: string)
    ensures |r| == |s|
  {
    seq(|s|, i requires 0 <= i < |s| => LowerChar(s[i]))
  }

  /** `strings.TrimPrefix`. */
  function TrimPrefix(s: string, prefix: string): string
  {
    if |prefix| <= |s| && s[..|prefix|] == prefix then s[|prefix|..] else s
  }

  /** `strings.TrimSuffix`. */
  function TrimSuffix(s: string, suffix: string): string
  {
    if |suffix| <= |s| && s[|s| - |suffix|..] == suffix then s[..|s| - |suffix|] else s
  }

  /** The extension is a suffix of the path: the path is its stem followed by it. */
  lemma {:induction false} ExtIsSuffix(path: string)
    ensures IsSuffix(Ext(path), path)
  {
    if path != "" && PlainChar(path[|path| - 1]) {
      var init := path[..|path| - 1];
      ExtIsSuffix(init);
      if Ext(init) != "" {
        SplitLast("", path);
        SuffixSnoc(init, Ext(init), path[|path| - 1]);
      }
    }
  }

  lemma SuffixSnoc(t: string, e: string, c: char)
    requires IsSuffix(e, t)
    ensures IsSuffix(e + [c], t + [c])
  {
    var tc := t + [c];
    assert tc[|tc| - |e + [c]|..] == t[|t| - |e|..] + [c];
  }

  /** Appending plain characters extends an extension, and never creates one. */
  lemma {:induction false} ExtAppendPlain(p: string, s: string)
    requires forall k :: 0 <= k < |s| ==> PlainChar(s[k])
    ensures Ext(p + s) == if Ext(p) == "" then "" else Ext(p) + s
  {
    if s == "" {
      assert p + s == p;
    } else {
      var q, c := s[..|s| - 1], s[|s| - 1];
      ExtAppendPlain(p, q);
      SplitLast(p, s);
      ExtSnocPlain(p + q, c);
      var e := Ext(p);
      if e != "" {
        AppendAssocChars(e, q, [c]);
      }
    }
  }

  /** A non-empty suffix is its init followed by its last character. */
  lemma SplitLast(p: string, s: string)
    requires s != ""
    ensures s == s[..|s| - 1] + [s[|s| - 1]]
    ensures p + s == (p + s[..|s| - 1]) + [s[|s| - 1]]
  {
    assert s == s[..|s| - 1] + [s[|s| - 1]];
  }

  lemma AppendAssocChars(a: string, b: string, c: string)
    ensures (a + b) + c == a + (b + c)
  {
  }

  /** One plain character more extends a non-empty extension by that character. */
  lemma ExtSnocPlain(p: string, c: char)
    requires PlainChar(c)
    ensures Ext(p + [c]) == if Ext(p) == "" then "" else Ext(p) + [c]
  {
    var pc := p + [c];
    assert pc[..|pc| - 1] == p;
  }

  /** A path that ends in '.' followed by plain characters has exactly that extension. */
  lemma ExtOfNewExtension(p: string, f: string)
    requires forall k :: 0 <= k < |f| ==> PlainChar(f[k])
    ensures Ext(p + "." + f) == "." + f
  {
    assert (p + ".")[..|p + "."| - 1] == p;
    ExtAppendPlain(p + ".", f);
  }
}
