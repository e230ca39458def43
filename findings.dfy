/** The partial check of `call` looks at the basename of the whole request
    path, but the template is looked up by the logical path, which is cut at
    the first '.'. A request such as `/_header.x/y` has the harmless basename
    `y`, yet its logical path `/_header` resolves to the partial
    `_header.html`, which is then served as a page. `HandleGuarded` applies
    the same check to the logical path as well. */
module Findings {
  import opened Base
  import opened RubyString
  import opened Hike
  import opened Locator
  import opened Responses
  import opened Brochure

  /** The request from the discrepancy: a partial reached by direct request. */
  const BypassPath: string := "/_header.x/y"

  /** As written: `/_header.x/y` passes `forbidden?`, its logical path has the
      partial of `/header` as its first page candidate, and with that partial
      on disk `call` compiles and serves it with status 200. */
  lemma PartialServedDirectly()
    ensures ForbiddenCheck(BypassPath) == Ok(false)
    ensures LogicalPath(BypassPath) == Some("/_header")
    ensures PartialCandidate("/header") == Ok("/_header.html")
    ensures PartialCandidate("/header").value in TemplateCandidates("/_header")
    ensures var trail := Trail(["app/templates"]);
            var w := World({"app/templates/_header.html"}, true,
                           (p: Path) => Ok(Template(p, "<p>header</p>")),
                           (t: Template, e: Env) => Ok(t.source));
            Handle(trail, map[], map["PATH_INFO" := BypassPath], w).0 == Ok(Success("<p>header</p>"))
  {
    BypassNotForbidden();
    BypassLogicalPath();
    BypassPartialCandidate();
    BypassResolves();
  }

  lemma BypassNotForbidden()
    ensures ForbiddenCheck(BypassPath) == Ok(false)
  {
    BypassNoDotDot();
    BypassNoNul();
    BypassBasename();
  }

  lemma BypassNoNul()
    ensures '\0' !in BypassPath
  {
    var path := BypassPath;
    forall i | 0 <= i < |path| ensures path[i] != '\0' {
    }
  }

  lemma BypassNoDotDot()
    ensures !IncludesDotDot(BypassPath)
  {
    BypassPairs();
    NoAdjacentDots(BypassPath);
  }

  lemma BypassPairs()
    ensures forall i :: 0 <= i < |BypassPath| - 1 ==> BypassPath[i] != '.' || BypassPath[i + 1] != '.'
  {
    var path := BypassPath;
    forall i | 0 <= i < |path| - 1 ensures path[i] != '.' || path[i + 1] != '.' {
      if path[i] == '.' { assert i == 8; }
    }
  }

  lemma BypassBasename()
    ensures Basename(BypassPath) == "y"
    ensures !MatchesCaretUnderscore("y")
  {
    assert BypassPath == "/_header.x" + "/" + "y";
    BasenameAfterSlash("/_header.x", "y");
  }

  lemma BypassLogicalPath()
    ensures LogicalPath(BypassPath) == Some("/_header")
  {
    assert BypassPath == "/_header" + ".x/y";
    TakeNonDotsStopsAtDot("/_header", ".x/y");
  }

  lemma BypassPartialCandidate()
    ensures PartialCandidate("/header") == Ok("/_header.html")
    ensures PartialCandidate("/header").value in TemplateCandidates("/_header")
  {
    assert "/header" == "" + "/" + "header";
    PartialCandidateInDirectory("", "header");
    assert "" + "/_" + "header" + ".html" == "/_header.html";
    assert "/_header" + ".html" == "/_header.html";
  }

  lemma BypassResolves()
    ensures FindTemplatePath(Trail(["app/templates"]), {"app/templates/_header.html"}, "/_header")
            == Some("app/templates/_header.html")
  {
    var trail := Trail(["app/templates"]);
    var files := {"app/templates/_header.html"};
    assert Under("app/templates", "/_header" + ".html") == "app/templates/_header.html";
    TemplatePrefersHtml(trail, files, "/_header", 0);
  }

  /** Corrected: `call` with the partial check applied to the logical path
      too; a request whose logical path is refused gets 403. The logical
      path holds no '.', and no NUL once the request path passed, so that
      second check cannot raise. */
  function HandleGuarded(trail: Trail, templates: Cache, env: Env, w: World): (out: (Result<Response>, Cache))
    ensures out.0.Ok? && out.0.value.status == 403 <==>
              || Refused(env)
              || (Admitted(env) && LogicalPath(env["PATH_INFO"]).Some? && IsForbidden(LogicalPath(env["PATH_INFO"]).value))
  {
    if "PATH_INFO" !in env then (Err(NilReceiver), templates)
    else
      var path := env["PATH_INFO"];
      match ForbiddenCheck(path)
      case Err(f) => (Err(f), templates)
      case Ok(refused) =>
        if refused then (Ok(Forbidden()), templates)
        else
          match LogicalPath(path)
          case None => (Err(NilReceiver), templates)
          case Some(lp) =>
            if IsForbidden(lp) then (Ok(Forbidden()), templates)
            else
              ServeOutcomes(trail, templates, lp, env, w);
              Serve(trail, templates, lp, env, w)
  }

  /** The corrected dispatcher never looks a partial up as a page: a request
      that passes both checks is served by the page branch, and no partial
      candidate of any logical path is among its page candidates. */
  lemma GuardedNeverServesPartial(trail: Trail, templates: Cache, env: Env, w: World, lp: string)
    requires Admitted(env) && LogicalPath(env["PATH_INFO"]) == Some(lp)
    ensures IsForbidden(lp) ==> HandleGuarded(trail, templates, env, w) == (Ok(Forbidden()), templates)
    ensures !IsForbidden(lp) ==>
              && HandleGuarded(trail, templates, env, w) == Serve(trail, templates, lp, env, w)
              && forall other :: PartialCandidate(other).Ok? ==> PartialCandidate(other).value !in TemplateCandidates(lp)
  {
    if !IsForbidden(lp) {
      forall other | PartialCandidate(other).Ok?
        ensures PartialCandidate(other).value !in TemplateCandidates(lp)
      {
        PartialNotAPageCandidate(lp, other);
      }
    }
  }

  /** For request paths without '.', the correction changes nothing. */
  lemma GuardedAgreesWithoutDot(trail: Trail, templates: Cache, env: Env, w: World)
    requires "PATH_INFO" in env
    requires forall j :: 0 <= j < |env["PATH_INFO"]| ==> env["PATH_INFO"][j] != '.'
    ensures HandleGuarded(trail, templates, env, w) == Handle(trail, templates, env, w)
  {
    var path := env["PATH_INFO"];
    if path != [] {
      TakeNonDotsStopsAtDot(path, "");
      assert path + "" == path;
    }
  }
}
