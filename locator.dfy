/** The path logic of `Brochure::Application`: which request paths are
    refused, how a request path becomes a logical path, and which files are
    tried for a page and for a partial. */
module Locator {
  import opened Base
  import opened RubyString
  import opened Hike

  // ---------------------------------------------------------------------
  // forbidden?(path)

  /** `forbidden?(path)`: the path contains ".." anywhere, or some line of
      its basename begins with `_` (Ruby's `^` anchors at every line). */
  predicate IsForbidden(path: string)
  {
    IncludesDotDot(path) || MatchesCaretUnderscore(Basename(path))
  }

  /** `forbidden?(path)` as Ruby evaluates it: `path[".."]` first, and only
      when that finds nothing `File.basename`, which raises ArgumentError on
      a path holding a NUL character. */
  function ForbiddenCheck(path: string): (r: Result<bool>)
    ensures r.Err? <==> !IncludesDotDot(path) && '\0' in path
    ensures r.Err? ==> r.fault == NullByte
    ensures r.Ok? ==> (r.value <==> IsForbidden(path))
  {
    if IncludesDotDot(path) then Ok(true)
    else if '\0' in path then Err(NullByte)
    else Ok(MatchesCaretUnderscore(Basename(path)))
  }

  /** Among the paths made only of '.', exactly "" and "." pass
      `forbidden?`: every longer one contains "..". */
  lemma AllDotsAdmitted(path: string)
    requires forall j :: 0 <= j < |path| ==> path[j] == '.'
    ensures ForbiddenCheck(path) == Ok(false) <==> path == "" || path == "."
  {
    if |path| >= 2 {
      LongDotsRefused(path);
    } else if |path| == 1 {
      assert path == ".";
      SingleDotAdmitted();
    } else {
      EmptyAdmitted();
    }
  }

  lemma LongDotsRefused(path: string)
    requires |path| >= 2 && path[0] == '.' && path[1] == '.'
    ensures ForbiddenCheck(path) == Ok(true)
  {
    assert IncludesDotDot(path);
  }

  lemma SingleDotAdmitted()
    ensures ForbiddenCheck(".") == Ok(false)
  {
    SingleDotBasename();
    SingleDotScans();
  }

  lemma SingleDotBasename()
    ensures Basename(".") == "."
  {
    BasenameNoSlash(".");
  }

  lemma SingleDotScans()
    ensures !IncludesDotDot(".") && '\0' !in "." && !MatchesCaretUnderscore(".")
  {
  }

  lemma EmptyAdmitted()
    ensures ForbiddenCheck("") == Ok(false)
  {
    assert Basename("") == "";
  }

  /** Both halves of `forbidden?`, stated without the Ruby helpers. */
  lemma ForbiddenMeaning(path: string)
    ensures IsForbidden(path) <==>
      (exists i :: 0 <= i < |path| - 1 && path[i] == '.' && path[i + 1] == '.')
      || (var b := Basename(path); exists i :: 0 <= i < |b| && b[i] == '_' && LineStart(b, i))
  {
  }

  /** A basename that starts with `_` is always refused. */
  lemma ForbiddenUnderscoreBasename(path: string)
    requires Basename(path) != [] && Basename(path)[0] == '_'
    ensures IsForbidden(path)
  {
    assert LineStart(Basename(path), 0);
  }

  /** For a path without line breaks `forbidden?` is exactly "contains `..`
      or its basename starts with `_`". */
  lemma ForbiddenSingleLine(path: string)
    requires forall j :: 0 <= j < |path| ==> path[j] != '\n'
    ensures IsForbidden(path) <==>
      (exists i :: 0 <= i < |path| - 1 && path[i] == '.' && path[i + 1] == '.')
      || (Basename(path) != [] && Basename(path)[0] == '_')
  {
    var b := Basename(path);
    BasenameChars(path);
    assert forall i :: 0 <= i < |b| && LineStart(b, i) ==> i == 0 by {
      forall i | 0 < i < |b| ensures !LineStart(b, i) {
        assert b[i - 1] in path;
      }
    }
    if b != [] && b[0] == '_' {
      assert LineStart(b, 0);
    }
  }

  /** Every character of a basename comes from the path. */
  lemma BasenameChars(path: string)
    ensures forall j :: 0 <= j < |Basename(path)| ==> Basename(path)[j] in path
  {
    if path != [] {
      var stripped := StripTrailingSlashes(path);
      if stripped == [] {
        assert path[0] == '/';
      } else {
        var b := LastSegment(stripped);
        forall j | 0 <= j < |b| ensures b[j] in path {
          assert b[j] == stripped[|stripped| - |b| + j] == path[|stripped| - |b| + j];
        }
      }
    }
  }

  // ---------------------------------------------------------------------
  // env["PATH_INFO"][/[^.]+/]

  /** The logical path of a request path: Ruby's `path[/[^.]+/]`, `None`
      (nil) when the path holds no character other than '.'. */
  function LogicalPath(pathInfo: string): (r: Option<string>)
    ensures r.None? <==> forall j :: 0 <= j < |pathInfo| ==> pathInfo[j] == '.'
    ensures r.Some? ==> r.value != [] && forall j :: 0 <= j < |r.value| ==> r.value[j] != '.'
  {
    FirstNonDotRun(pathInfo)
  }

  /** A request path that does not start with '.' has as logical path its
      prefix up to the first '.'. */
  lemma LogicalPathIsPrefix(pathInfo: string)
    requires pathInfo != [] && pathInfo[0] != '.'
    ensures LogicalPath(pathInfo).Some?
    ensures var lp := LogicalPath(pathInfo).value;
            && lp == pathInfo[..|lp|]
            && (|lp| == |pathInfo| || pathInfo[|lp|] == '.')
  {
    assert LeadingDots(pathInfo) == 0;
  }

  /** An extension never changes the logical path: `/foo.json` and `/foo`
      resolve alike. */
  lemma LogicalPathIgnoresExtension(p: string, ext: string)
    requires p != [] && forall j :: 0 <= j < |p| ==> p[j] != '.'
    ensures LogicalPath(p + "." + ext) == LogicalPath(p) == Some(p)
  {
    TakeNonDotsStopsAtDot(p, "." + ext);
    TakeNonDotsStopsAtDot(p, "");
    assert p + "" == p;
    assert p + "." + ext == p + ("." + ext);
  }

  lemma {:induction false} TakeNonDotsStopsAtDot(p: string, rest: string)
    requires p != [] && forall j :: 0 <= j < |p| ==> p[j] != '.'
    requires rest == [] || rest[0] == '.'
    ensures LeadingDots(p + rest) == 0
    ensures TakeNonDots(p + rest) == p
    ensures FirstNonDotRun(p + rest) == Some(p)
  {
    var s := p + rest;
    assert s[0] == p[0];
    if |p| == 1 {
      assert s[1..] == rest;
    } else {
      assert s[1..] == p[1..] + rest;
      TakeNonDotsStopsAtDot(p[1..], rest);
    }
    assert s[0..] == s;
  }

  /** With an extension free of '.', '/' and line breaks, a request path
      that has no '.' and does not end in '/' is refused exactly when the
      same path without the extension is. */
  lemma ForbiddenIgnoresExtension(p: string, ext: string)
    requires p != [] && p[|p| - 1] != '/'
    requires forall j :: 0 <= j < |p| ==> p[j] != '.'
    requires forall j :: 0 <= j < |ext| ==> ext[j] != '.' && ext[j] != '/' && ext[j] != '\n'
    ensures IsForbidden(p + "." + ext) <==> IsForbidden(p)
  {
    SingleDotNoDotDot(p, ext);
    NoAdjacentDots(p);
    CaretWithExtension(p, ext);
  }

  /** The same, for `forbidden?` as it runs: when the extension also holds
      no NUL, it neither raises nor answers differently. */
  lemma CheckIgnoresExtension(p: string, ext: string)
    requires p != [] && p[|p| - 1] != '/'
    requires forall j :: 0 <= j < |p| ==> p[j] != '.'
    requires forall j :: 0 <= j < |ext| ==> ext[j] != '.' && ext[j] != '/' && ext[j] != '\n' && ext[j] != '\0'
    ensures ForbiddenCheck(p + "." + ext) == ForbiddenCheck(p)
  {
    ForbiddenIgnoresExtension(p, ext);
    SingleDotNoDotDot(p, ext);
    NoAdjacentDots(p);
    NulWithExtension(p, ext);
  }

  lemma NulWithExtension(p: string, ext: string)
    requires forall j :: 0 <= j < |ext| ==> ext[j] != '\0'
    ensures ('\0' in p + "." + ext) <==> ('\0' in p)
  {
  }

  /** The extension adds no line that starts with `_` to the basename. */
  lemma CaretWithExtension(p: string, ext: string)
    requires p != [] && p[|p| - 1] != '/'
    requires forall j :: 0 <= j < |ext| ==> ext[j] != '/' && ext[j] != '\n'
    ensures MatchesCaretUnderscore(Basename(p + "." + ext)) <==> MatchesCaretUnderscore(Basename(p))
  {
    var t := "." + ext;
    DotExtension(ext);
    var s := p + "." + ext;
    assert s == p + t;
    BasenameAppend(p, t);
    CaretIgnoresSuffix(Basename(p), t);
  }

  lemma DotExtension(ext: string)
    requires forall j :: 0 <= j < |ext| ==> ext[j] != '/' && ext[j] != '\n'
    ensures var t := "." + ext; t != [] && t[0] == '.' && forall j :: 0 <= j < |t| ==> t[j] != '/' && t[j] != '\n'
  {
  }

  lemma SingleDotNoDotDot(p: string, ext: string)
    requires forall j :: 0 <= j < |p| ==> p[j] != '.'
    requires forall j :: 0 <= j < |ext| ==> ext[j] != '.'
    ensures !IncludesDotDot(p + "." + ext)
  {
    SingleDotPairs(p, ext);
    NoAdjacentDots(p + "." + ext);
  }

  /** No two adjacent characters of `p.ext` are both '.'. */
  lemma SingleDotPairs(p: string, ext: string)
    requires forall j :: 0 <= j < |p| ==> p[j] != '.'
    requires forall j :: 0 <= j < |ext| ==> ext[j] != '.'
    ensures var s := p + "." + ext; forall i :: 0 <= i < |s| - 1 ==> s[i] != '.' || s[i + 1] != '.'
  {
    var s := p + "." + ext;
    assert forall j :: 0 <= j < |p| ==> s[j] == p[j];
    assert forall j :: |p| < j < |s| ==> s[j] == ext[j - |p| - 1];
  }

  lemma NoAdjacentDots(s: string)
    requires forall i :: 0 <= i < |s| - 1 ==> s[i] != '.' || s[i + 1] != '.'
    ensures !IncludesDotDot(s)
  {
  }

  /** A suffix that starts with a character other than `_` and holds no line
      break adds no line that starts with `_`. */
  lemma CaretIgnoresSuffix(b: string, t: string)
    requires t != [] && t[0] != '_'
    requires forall j :: 0 <= j < |t| ==> t[j] != '\n'
    ensures MatchesCaretUnderscore(b + t) <==> MatchesCaretUnderscore(b)
  {
    var s := b + t;
    forall i | |b| <= i < |s|
      ensures !(s[i] == '_' && LineStart(s, i))
    {
      if i == |b| { assert s[i] == t[0]; }
      else { assert s[i - 1] == t[i - 1 - |b|]; }
    }
    forall i | 0 <= i < |b| && b[i] == '_' && LineStart(b, i)
      ensures s[i] == '_' && LineStart(s, i)
    {
    }
  }

  // ---------------------------------------------------------------------
  // find_template_path(logical_path)

  /** The files tried for a page, in order. */
  function TemplateCandidates(logicalPath: string): seq<Path>
  {
    [logicalPath + ".html", logicalPath + "/index.html"]
  }

  /** `find_template_path`: the first of `p.html`, `p/index.html` found on
      the trail. */
  function FindTemplatePath(trail: Trail, files: set<Path>, logicalPath: string): (r: Option<Path>)
    ensures r.None? <==> forall j :: 0 <= j < |trail.roots| ==>
                           Under(trail.roots[j], logicalPath + ".html") !in files
                           && Under(trail.roots[j], logicalPath + "/index.html") !in files
    ensures r.Some? ==> exists j :: 0 <= j < |trail.roots|
                          && (r.value == Under(trail.roots[j], logicalPath + ".html")
                              || r.value == Under(trail.roots[j], logicalPath + "/index.html"))
  {
    FindPair(trail, files, logicalPath + ".html", logicalPath + "/index.html");
    Find(trail, files, TemplateCandidates(logicalPath))
  }

  /** `p.html` on any root wins over `p/index.html` on every root, and the
      earliest root holding `p.html` is the one used. */
  lemma TemplatePrefersHtml(trail: Trail, files: set<Path>, logicalPath: string, j: int)
    requires 0 <= j < |trail.roots| && Under(trail.roots[j], logicalPath + ".html") in files
    ensures exists j0 :: 0 <= j0 <= j
              && FindTemplatePath(trail, files, logicalPath) == Some(Under(trail.roots[j0], logicalPath + ".html"))
  {
    var cs := TemplateCandidates(logicalPath);
    EarliestRoot(trail.roots, files, cs, 0, j);
    var j0 :| 0 <= j0 <= j && Hit(trail.roots, files, cs, 0, j0)
              && forall j' :: 0 <= j' < j0 ==> !Hit(trail.roots, files, cs, 0, j');
    assert FirstHit(trail.roots, files, cs, 0, j0);
    FindReturnsFirstHit(trail, files, cs, 0, j0);
  }

  /** Only when no root holds `p.html` is `p/index.html` used. */
  lemma TemplateFallsBackToIndex(trail: Trail, files: set<Path>, logicalPath: string, j: int)
    requires forall j' :: 0 <= j' < |trail.roots| ==> Under(trail.roots[j'], logicalPath + ".html") !in files
    requires 0 <= j < |trail.roots| && Under(trail.roots[j], logicalPath + "/index.html") in files
    ensures exists j0 :: 0 <= j0 <= j
              && FindTemplatePath(trail, files, logicalPath) == Some(Under(trail.roots[j0], logicalPath + "/index.html"))
  {
    var cs := TemplateCandidates(logicalPath);
    EarliestRoot(trail.roots, files, cs, 1, j);
    var j0 :| 0 <= j0 <= j && Hit(trail.roots, files, cs, 1, j0)
              && forall j' :: 0 <= j' < j0 ==> !Hit(trail.roots, files, cs, 1, j');
    assert FirstHit(trail.roots, files, cs, 1, j0);
    FindReturnsFirstHit(trail, files, cs, 1, j0);
  }

  // ---------------------------------------------------------------------
  // find_partial_path(logical_path)

  /** The stem of a partial's file name: the pieces before the last one
      unchanged, the last one prefixed with `_`, all joined with '/'. */
  function PartialStem(parts: seq<string>): string
    requires parts != []
  {
    Join(parts[..|parts| - 1] + ["_" + parts[|parts| - 1]])
  }

  /** The one file tried for a partial: the stem of the '/'-separated pieces
      of the logical path, followed by ".html". `Err(NilConversion)` is Ruby's
      TypeError from `"_" + nil`, raised when the split yields no piece. */
  function PartialCandidate(logicalPath: string): Result<Path>
  {
    var parts := Split(logicalPath);
    if parts == [] then Err(NilConversion)
    else Ok(PartialStem(parts) + ".html")
  }

  /** `find_partial_path`: the partial's single candidate looked up on the trail. */
  function FindPartialPath(trail: Trail, files: set<Path>, logicalPath: string): (r: Result<Option<Path>>)
    ensures r.Err? <==> PartialCandidate(logicalPath).Err?
    ensures r.Ok? ==> var c := PartialCandidate(logicalPath).value;
                      && (r.value.None? <==> forall j :: 0 <= j < |trail.roots| ==> Under(trail.roots[j], c) !in files)
                      && (r.value.Some? ==> exists j :: 0 <= j < |trail.roots| && r.value.value == Under(trail.roots[j], c))
  {
    match PartialCandidate(logicalPath)
    case Err(f) => Err(f)
    case Ok(c) =>
      FindSingle(trail, files, c);
      Ok(Find(trail, files, [c]))
  }

  /** The partial lookup fails exactly for a logical path made only of '/'
      (the empty path included). */
  lemma {:induction false} PartialCandidateFails(logicalPath: string)
    ensures PartialCandidate(logicalPath).Err? <==> forall j :: 0 <= j < |logicalPath| ==> logicalPath[j] == '/'
  {
    var all := SplitAll(logicalPath);
    if forall j :: 0 <= j < |logicalPath| ==> logicalPath[j] == '/' {
      SplitAllOfSlashes(logicalPath);
    } else {
      if Split(logicalPath) == [] {
        assert forall k :: 0 <= k < |all| ==> all[k] == "";
        JoinSplitAll(logicalPath);
        JoinOfEmpties(all);
      }
    }
  }

  lemma {:induction false} SplitAllOfSlashes(s: string)
    requires forall j :: 0 <= j < |s| ==> s[j] == '/'
    ensures forall k :: 0 <= k < |SplitAll(s)| ==> SplitAll(s)[k] == ""
  {
    if s != [] {
      SplitAllOfSlashes(s[1..]);
    }
  }

  lemma {:induction false} JoinOfEmpties(parts: seq<string>)
    requires forall k :: 0 <= k < |parts| ==> parts[k] == ""
    ensures forall j :: 0 <= j < |Join(parts)| ==> Join(parts)[j] == '/'
  {
    if |parts| > 1 {
      JoinOfEmpties(parts[1..]);
      assert Join(parts) == "/" + Join(parts[1..]);
    }
  }

  /** A logical path with a directory part: the directory stays as it is
      and only the last piece gains `_`. */
  lemma PartialCandidateInDirectory(dir: string, name: string)
    requires name != [] && forall j :: 0 <= j < |name| ==> name[j] != '/'
    ensures PartialCandidate(dir + "/" + name) == Ok(dir + "/_" + name + ".html")
  {
    SplitInDirectory(dir, name);
    StemInDirectory(dir, name);
    assert dir + "/" + ("_" + name) + ".html" == dir + "/_" + name + ".html";
  }

  lemma SplitInDirectory(dir: string, name: string)
    requires name != [] && forall j :: 0 <= j < |name| ==> name[j] != '/'
    ensures Split(dir + "/" + name) == SplitAll(dir) + [name]
  {
    SplitAllAtSlash(dir, name);
    SplitAllNoSlash(name);
  }

  lemma StemInDirectory(dir: string, name: string)
    ensures PartialStem(SplitAll(dir) + [name]) == dir + "/" + ("_" + name)
  {
    var all := SplitAll(dir);
    assert (all + [name])[..|all|] == all;
    JoinSnoc(all, "_" + name);
    JoinSplitAll(dir);
  }

  /** A logical path that is a single name. */
  lemma PartialCandidateBareName(name: string)
    requires name != [] && forall j :: 0 <= j < |name| ==> name[j] != '/'
    ensures PartialCandidate(name) == Ok("_" + name + ".html")
  {
    SplitAllNoSlash(name);
    assert Split(name) == [name];
    assert [name][..0] + ["_" + name] == ["_" + name];
  }

  /** The stem's final piece, and so its basename, is the last piece with `_`. */
  lemma PartialStemLast(parts: seq<string>)
    requires parts != []
    requires forall i, j :: 0 <= i < |parts| && 0 <= j < |parts[i]| ==> parts[i][j] != '/'
    ensures LastSegment(PartialStem(parts)) == "_" + parts[|parts| - 1]
    ensures Basename(PartialStem(parts)) == "_" + parts[|parts| - 1]
  {
    var init := parts[..|parts| - 1];
    var piece := parts[|parts| - 1];
    var last := "_" + piece;
    assert forall j :: 0 <= j < |last| ==> last[j] != '/' by {
      assert forall j :: 1 <= j < |last| ==> last[j] == piece[j - 1];
    }
    if init == [] {
      assert init + [last] == [last];
      BasenameNoSlash(last);
    } else {
      JoinSnoc(init, last);
      BasenameAfterSlash(Join(init), last);
    }
  }

  /** Every partial candidate is `stem + ".html"` for a stem whose basename
      starts with `_`: a request for that stem is refused. */
  lemma PartialStemForbidden(logicalPath: string)
    requires PartialCandidate(logicalPath).Ok?
    ensures var parts := Split(logicalPath);
            && parts != []
            && PartialCandidate(logicalPath).value == PartialStem(parts) + ".html"
            && Basename(PartialStem(parts)) == "_" + parts[|parts| - 1]
            && IsForbidden(PartialStem(parts))
  {
    var parts := Split(logicalPath);
    SplitPiecesNoSlash(logicalPath);
    PartialStemLast(parts);
    ForbiddenUnderscoreBasename(PartialStem(parts));
  }

  /** A partial candidate's final piece starts with `_`. */
  lemma PartialLastSegment(logicalPath: string)
    requires PartialCandidate(logicalPath).Ok?
    ensures var seg := LastSegment(PartialCandidate(logicalPath).value);
            seg != [] && seg[0] == '_'
  {
    PartialCandidateShape(logicalPath);
    SplitPiecesNoSlash(logicalPath);
    StemFileSegment(Split(logicalPath));
  }

  /** A successful partial candidate is the stem of the split, plus ".html". */
  lemma PartialCandidateShape(logicalPath: string)
    requires PartialCandidate(logicalPath).Ok?
    ensures Split(logicalPath) != []
    ensures PartialCandidate(logicalPath).value == PartialStem(Split(logicalPath)) + ".html"
  {
  }

  /** The file name of a stem plus ".html" starts with `_`. */
  lemma StemFileSegment(parts: seq<string>)
    requires parts != []
    requires forall i, j :: 0 <= i < |parts| && 0 <= j < |parts[i]| ==> parts[i][j] != '/'
    ensures var seg := LastSegment(PartialStem(parts) + ".html");
            seg != [] && seg[0] == '_'
  {
    PartialStemLast(parts);
    HtmlSegment(PartialStem(parts));
  }

  /** Appending ".html" keeps the first character of the last segment. */
  lemma HtmlSegment(stem: string)
    requires LastSegment(stem) != []
    ensures LastSegment(stem + ".html") != [] && LastSegment(stem + ".html")[0] == LastSegment(stem)[0]
  {
    HtmlNoSlash();
    LastSegmentAppend(stem, ".html");
    HeadOfAppend(LastSegment(stem), ".html");
  }

  lemma HtmlNoSlash()
    ensures forall j :: 0 <= j < |".html"| ==> ".html"[j] != '/'
  {
  }

  lemma HeadOfAppend(a: string, b: string)
    requires a != []
    ensures a + b != [] && (a + b)[0] == a[0]
  {
  }

  /** A logical path that is not itself refused never has a partial
      candidate among its page candidates. */
  lemma PartialNotAPageCandidate(logicalPath: string, partialOf: string)
    requires !IsForbidden(logicalPath)
    requires PartialCandidate(partialOf).Ok?
    ensures PartialCandidate(partialOf).value !in TemplateCandidates(logicalPath)
  {
    PartialNotHtmlCandidate(logicalPath, partialOf);
    PartialNotIndexCandidate(logicalPath, partialOf);
  }

  lemma PartialNotHtmlCandidate(logicalPath: string, partialOf: string)
    requires !IsForbidden(logicalPath)
    requires PartialCandidate(partialOf).Ok?
    ensures PartialCandidate(partialOf).value != logicalPath + ".html"
  {
    PartialStemForbidden(partialOf);
    var stem := PartialStem(Split(partialOf));
    AppendCancel(stem, logicalPath, ".html");
  }

  lemma AppendCancel(a: string, b: string, t: string)
    ensures a + t == b + t ==> a == b
  {
    if a + t == b + t {
      assert a == (a + t)[..|a|];
      assert b == (b + t)[..|b|];
    }
  }

  lemma PartialNotIndexCandidate(logicalPath: string, partialOf: string)
    requires PartialCandidate(partialOf).Ok?
    ensures PartialCandidate(partialOf).value != logicalPath + "/index.html"
  {
    PartialLastSegment(partialOf);
    IndexSegment(logicalPath);
  }

  /** The last segment of a directory index candidate is "index.html". */
  lemma IndexSegment(logicalPath: string)
    ensures LastSegment(logicalPath + "/index.html") == "index.html"
  {
    assert logicalPath + "/index.html" == logicalPath + "/" + "index.html";
    assert forall j :: 0 <= j < |"index.html"| ==> "index.html"[j] != '/';
    LastSegmentAfterSlash(logicalPath, "index.html");
  }
}
