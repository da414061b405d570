/**
 * The demo static-file server (demo/server.ts): the root path is served as
 * `/index.html`, and the content type of a file is chosen from the text after
 * the last `.` of its path, compared without regard to case.
 */
module DemoServer {
  import opened Strings

  /** The request path after the rewrite in `fetch`: `/` becomes `/index.html`, every other path is kept. */
  function RewritePath(path: string): (r: string)
    ensures path == "/" ==> r == "/index.html"
    ensures path != "/" ==> r == path
  {
    if path == "/" then "/index.html" else path
  }

  /** No character of `s` is `c`. */
  predicate Lacks(s: string, c: char) {
    forall i :: 0 <= i < |s| ==> s[i] != c
  }

  /** `s.split(sep)` for a one-character separator: the pieces between separators, at least one. */
  function Split(s: string, sep: char): (parts: seq<string>)
    ensures 1 <= |parts|
    ensures forall i :: 0 <= i < |parts| ==> Lacks(parts[i], sep)
    decreases |s|
  {
    if s == [] then [""]
    else
      var init := Split(s[..|s| - 1], sep);
      var c := s[|s| - 1];
      if c == sep then init + [""]
      else init[..|init| - 1] + [init[|init| - 1] + [c]]
  }

  /** The pieces glued back together with the separator between them. */
  function Join(parts: seq<string>, sep: char): string
    requires 1 <= |parts|
  {
    if |parts| == 1 then parts[0] else Join(parts[..|parts| - 1], sep) + [sep] + parts[|parts| - 1]
  }

  /** `pop()`: the last piece. */
  function Last(parts: seq<string>): string
    requires 1 <= |parts|
  {
    parts[|parts| - 1]
  }

  /** Splitting a string with one more character at its end. */
  lemma SplitSnoc(t: string, c: char, sep: char)
    ensures var init := Split(t, sep);
      Split(t + [c], sep) == if c == sep then init + [""] else init[..|init| - 1] + [init[|init| - 1] + [c]]
  {
    assert (t + [c])[..|t|] == t;
  }

  /** The last piece of a string with one more character at its end. */
  lemma LastSnoc(t: string, c: char, sep: char)
    ensures Last(Split(t + [c], sep)) == if c == sep then "" else Last(Split(t, sep)) + [c]
  {
    SplitSnoc(t, c, sep);
  }

  /** Splitting loses nothing: joining the pieces gives back the string. */
  lemma {:induction false} JoinSplit(s: string, sep: char)
    ensures Join(Split(s, sep), sep) == s
    decreases |s|
  {
    if s != [] {
      var t, c := s[..|s| - 1], s[|s| - 1];
      assert s == t + [c];
      JoinSplit(t, sep);
      SplitSnoc(t, c, sep);
      var init := Split(t, sep);
      var k := |init| - 1;
      if c == sep {
        assert (init + [""])[..|init|] == init;
      } else if k > 0 {
        var parts := init[..k] + [init[k] + [c]];
        assert parts[..k] == init[..k];
        assert Join(init, sep) == Join(init[..k], sep) + [sep] + init[k];
      }
    }
  }

  /** The characters after the last separator of `s`: all of `s` when it has none. */
  function AfterLastSeparator(s: string, sep: char): string
    decreases |s|
  {
    if s == [] || s[|s| - 1] == sep then "" else AfterLastSeparator(s[..|s| - 1], sep) + [s[|s| - 1]]
  }

  /** The last piece of the split is what follows the last separator. */
  lemma {:induction false} LastPieceAfterLastSeparator(s: string, sep: char)
    ensures Last(Split(s, sep)) == AfterLastSeparator(s, sep)
    decreases |s|
  {
    if s != [] {
      var t, c := s[..|s| - 1], s[|s| - 1];
      assert s == t + [c];
      LastPieceAfterLastSeparator(t, sep);
      LastSnoc(t, c, sep);
    }
  }

  /**
   * What follows the last separator is the longest suffix without one: it ends
   * the string, no separator lies in it, and when it is not the whole string a
   * separator comes just before it.
   */
  lemma {:induction false} AfterLastSeparatorIsSuffix(s: string, sep: char)
    ensures |AfterLastSeparator(s, sep)| <= |s|
    ensures AfterLastSeparator(s, sep) == s[|s| - |AfterLastSeparator(s, sep)|..]
    ensures forall j :: |s| - |AfterLastSeparator(s, sep)| <= j < |s| ==> s[j] != sep
    ensures |AfterLastSeparator(s, sep)| < |s| ==> s[|s| - |AfterLastSeparator(s, sep)| - 1] == sep
    decreases |s|
  {
    if s != [] && s[|s| - 1] != sep {
      var t, c := s[..|s| - 1], s[|s| - 1];
      AfterLastSeparatorIsSuffix(t, sep);
      var q := AfterLastSeparator(t, sep);
      assert AfterLastSeparator(s, sep) == q + [c];
      assert s == t + [c];
      assert s[|s| - |q| - 1..] == t[|t| - |q|..] + [c];
    }
  }

  /** In `stem.ext`, the dot sits right after the stem and only `ext` follows it. */
  lemma DotBeforeExtension(stem: string, ext: string)
    requires Lacks(ext, '.')
    ensures var s := stem + "." + ext;
      s[|stem|] == '.' && s[|stem| + 1..] == ext && forall j :: |stem| < j < |s| ==> s[j] != '.'
  {
    var s := stem + "." + ext;
    assert forall j :: |stem| < j < |s| ==> s[j] == ext[j - |stem| - 1];
  }

  /** The piece after a dot that is followed by no other dot is what `pop()` yields. */
  lemma LastPieceAfterDot(stem: string, ext: string)
    requires Lacks(ext, '.')
    ensures Last(Split(stem + "." + ext, '.')) == ext
  {
    var s := stem + "." + ext;
    DotBeforeExtension(stem, ext);
    LastPieceAfterLastSeparator(s, '.');
    AfterLastSeparatorIsSuffix(s, '.');
    assert |AfterLastSeparator(s, '.')| == |ext|;
  }

  /** A path with no dot is its own last piece. */
  lemma LastPieceWithoutDot(path: string)
    requires Lacks(path, '.')
    ensures Last(Split(path, '.')) == path
  {
    LastPieceAfterLastSeparator(path, '.');
    AfterLastSeparatorIsSuffix(path, '.');
  }

  lemma LowerSnoc(t: string, c: char)
    ensures Lower(t + [c]) == Lower(t) + [LowerChar(c)]
  {
  }

  /** Lower-casing does not create or remove dots, so it commutes with taking the last piece. */
  lemma {:induction false} LastPieceLower(s: string)
    ensures Last(Split(Lower(s), '.')) == Lower(Last(Split(s, '.')))
    decreases |s|
  {
    if s != [] {
      var t, c := s[..|s| - 1], s[|s| - 1];
      assert s == t + [c];
      LastPieceLower(t);
      LowerSnoc(t, c);
      LastSnoc(t, c, '.');
      LastSnoc(Lower(t), LowerChar(c), '.');
      assert (LowerChar(c) == '.') == (c == '.');
      if c != '.' {
        LowerSnoc(Last(Split(t, '.')), c);
      }
    }
  }

  /**
   * `filePath.split('.').pop()?.toLowerCase()`: the lower-cased path's text
   * after its last dot, or the whole lower-cased path when it has none.
   */
  function PathExtension(filePath: string): (ext: string)
    ensures ext == AfterLastSeparator(Lower(filePath), '.')
  {
    LastPieceLower(filePath);
    LastPieceAfterLastSeparator(Lower(filePath), '.');
    Lower(Last(Split(filePath, '.')))
  }

  /** The `switch` of `getMimeType`: three known extensions, everything else binary. */
  function MimeForExtension(ext: string): (mime: string)
    ensures mime == "text/html" <==> ext == "html"
    ensures mime == "text/css" <==> ext == "css"
    ensures mime == "application/javascript" <==> ext == "js"
    ensures mime == "application/octet-stream" <==> ext != "html" && ext != "css" && ext != "js"
  {
    if ext == "html" then "text/html"
    else if ext == "css" then "text/css"
    else if ext == "js" then "application/javascript"
    else "application/octet-stream"
  }

  /** `getMimeType`: the `switch` applied to what follows the last dot of the lower-cased path. */
  function GetMimeType(filePath: string): (mime: string)
    ensures mime == MimeForExtension(AfterLastSeparator(Lower(filePath), '.'))
  {
    MimeForExtension(PathExtension(filePath))
  }

  /** Only the text after the last dot counts, compared in lower case. */
  lemma MimeTypeOfExtension(stem: string, ext: string)
    requires Lacks(ext, '.')
    ensures GetMimeType(stem + "." + ext) == MimeForExtension(Lower(ext))
  {
    LastPieceAfterDot(stem, ext);
  }

  /**
   * The three extensions of the `switch`, written in lower case after any stem
   * (which may itself hold dots), get their own types: `text/html`, `text/css`
   * and `application/javascript`.
   */
  lemma KnownMimeType(stem: string, ext: string)
    requires ext == "html" || ext == "css" || ext == "js"
    ensures GetMimeType(stem + "." + ext) == MimeForExtension(ext) != "application/octet-stream"
  {
    assert Lower(ext) == ext;
    MimeTypeOfExtension(stem, ext);
  }

  /** Every other extension is served as `application/octet-stream`. */
  lemma OtherMimeType(stem: string, ext: string)
    requires Lacks(ext, '.') && Lower(ext) != "html" && Lower(ext) != "css" && Lower(ext) != "js"
    ensures GetMimeType(stem + "." + ext) == "application/octet-stream"
  {
    MimeTypeOfExtension(stem, ext);
  }

  /** A path without any dot is compared as a whole. */
  lemma MimeTypeWithoutDot(path: string)
    requires Lacks(path, '.')
    ensures GetMimeType(path) == MimeForExtension(Lower(path))
  {
    LastPieceWithoutDot(path);
  }

  /** Two paths that agree up to case get the same content type. */
  lemma MimeTypeIgnoresCase(p: string, q: string)
    requires Lower(p) == Lower(q)
    ensures GetMimeType(p) == GetMimeType(q)
  {
    LastPieceLower(p);
    LastPieceLower(q);
  }

  lemma MimeTypeExamples()
    ensures GetMimeType("X.HTML") == GetMimeType("x.html") == "text/html"
    ensures GetMimeType("a.html.js") == "application/javascript"
  {
    KnownMimeType("x", "html");
    assert "x" + "." + "html" == "x.html";
    KnownMimeType("a.html", "js");
    assert "a.html" + "." + "js" == "a.html.js";
    assert Lower("X.HTML") == Lower("x.html");
    MimeTypeIgnoresCase("X.HTML", "x.html");
  }

  /** The root of the site is served as HTML, from `index.html` under the served directory. */
  lemma RootServedAsHtml(directory: string)
    ensures GetMimeType(directory + RewritePath("/")) == "text/html"
  {
    assert directory + RewritePath("/") == (directory + "/index") + "." + "html";
    KnownMimeType(directory + "/index", "html");
  }
}
