/** `Brochure::Application`: the template cache and the request dispatcher.
    The outside world a request meets is explicit: the files on disk, the
    development flag, the template engine's compiler and its renderer. */
module Brochure {
  import opened Base
  import opened RubyString
  import opened Hike
  import opened Locator
  import opened Responses

  /** What one call sees of the world: the existing files, whether the
      process runs in development mode, `Tilt.new` (which may raise) and
      `template.render(context, {})` with a context built from the request. */
  datatype World = World(
    files: set<Path>,
    development: bool,
    compile: Path -> Result<Template>,
    render: (Template, Env) -> Result<string>)

  /** The cache `@templates`: compiled templates by resolved path. */
  type Cache = map<Path, Template>

  // ---------------------------------------------------------------------
  // template_for(template_path)

  /** `template_for`: the template returned and the cache afterwards.
      In development mode the cache is bypassed and the file is compiled
      anew; in production `@templates[path] ||= Tilt.new(path)`. */
  function TemplateLookup(templates: Cache, path: Path, development: bool, compile: Path -> Result<Template>): (out: (Result<Template>, Cache))
    // only `path` can gain an entry, and no entry is replaced or dropped
    ensures out.1.Keys <= templates.Keys + {path}
    ensures forall k :: k in templates ==> k in out.1 && out.1[k] == templates[k]
    // a failed compile stores nothing
    ensures out.0.Err? ==> out.1 == templates
    // development mode: compiled afresh, cache untouched
    ensures development ==> out.0 == compile(path) && out.1 == templates
    // production mode: a stored template is returned without compiling
    ensures !development && path in templates ==> out.0 == Ok(templates[path])
    // production mode: a miss compiles, and a success is what is stored
    ensures !development && path !in templates ==> out.0 == compile(path)
    ensures !development && out.0.Ok? ==> path in out.1 && out.1[path] == out.0.value
  {
    if development then (compile(path), templates)
    else if path in templates then (Ok(templates[path]), templates)
    else
      match compile(path)
      case Ok(t) => (Ok(t), templates[path := t])
      case Err(f) => (Err(f), templates)
  }

  /** In production, a second `template_for` on the same path returns the
      object the first one stored, whatever the file now holds, and leaves
      the cache as the first call left it. */
  lemma SecondLookupReusesTemplate(templates: Cache, path: Path, compile1: Path -> Result<Template>, compile2: Path -> Result<Template>)
    requires TemplateLookup(templates, path, false, compile1).0.Ok?
    ensures var (t1, c1) := TemplateLookup(templates, path, false, compile1);
            var (t2, c2) := TemplateLookup(c1, path, false, compile2);
            t2 == t1 && c2 == c1
  {
  }

  /** In development, a second `template_for` reflects an edit to the file. */
  lemma DevelopmentSeesEdits(templates: Cache, path: Path, compile1: Path -> Result<Template>, compile2: Path -> Result<Template>)
    ensures var (_, c1) := TemplateLookup(templates, path, true, compile1);
            c1 == templates && TemplateLookup(c1, path, true, compile2) == (compile2(path), templates)
  {
  }

  // ---------------------------------------------------------------------
  // call(env)

  /** `call(env)`: the response (or the escaping exception) and the cache
      afterwards. A missing `PATH_INFO`, or one with no character other
      than '.', makes Ruby call a String method on nil; a NUL character
      the `..` scan lets through makes `File.basename` raise. */
  function Handle(trail: Trail, templates: Cache, env: Env, w: World): (Result<Response>, Cache)
  {
    if "PATH_INFO" !in env then (Err(NilReceiver), templates)
    else
      var path := env["PATH_INFO"];
      match ForbiddenCheck(path)
      case Err(f) => (Err(f), templates)
      case Ok(refused) =>
        if refused then (Ok(Forbidden()), templates)
        else
          match LogicalPath(path)
          case None => (Err(NilReceiver), templates)
          case Some(lp) => Serve(trail, templates, lp, env, w)
  }

  /** The `find_template` branch of `call` for logical path `lp`. */
  function Serve(trail: Trail, templates: Cache, lp: string, env: Env, w: World): (Result<Response>, Cache)
  {
    match FindTemplatePath(trail, w.files, lp)
    case None => (Ok(NotFound()), templates)
    case Some(tp) =>
      var (t, cache) := TemplateLookup(templates, tp, w.development, w.compile);
      match t
      case Err(f) => (Err(f), cache)
      case Ok(template) =>
        match w.render(template, env)
        case Err(f) => (Err(f), cache)
        case Ok(body) => (Ok(Success(body)), cache)
  }

  /** The request carries a `PATH_INFO` that `forbidden?` refuses. */
  predicate Refused(env: Env)
  {
    "PATH_INFO" in env && ForbiddenCheck(env["PATH_INFO"]) == Ok(true)
  }

  /** The request carries a `PATH_INFO` that `forbidden?` lets through. */
  predicate Admitted(env: Env)
  {
    "PATH_INFO" in env && ForbiddenCheck(env["PATH_INFO"]) == Ok(false)
  }

  /** `f` is the fault the page branch for `lp` raises: compiling the page
      `find` resolved fails with `f`, or rendering its template does. */
  predicate PageFault(trail: Trail, templates: Cache, lp: string, env: Env, w: World, f: Fault)
  {
    match FindTemplatePath(trail, w.files, lp)
    case None => false
    case Some(tp) =>
      match TemplateLookup(templates, tp, w.development, w.compile).0
      case Err(g) => g == f
      case Ok(t) => w.render(t, env) == Err(f)
  }

  /** `c` is the cache the page branch for `lp` leaves: the resolved page
      is stored exactly when it was found, the process is in production,
      it was not cached yet and it compiles; otherwise the cache is as it
      was. */
  predicate PageStores(trail: Trail, templates: Cache, lp: string, w: World, c: Cache)
  {
    match FindTemplatePath(trail, w.files, lp)
    case None => c == templates
    case Some(tp) =>
      if !w.development && tp !in templates && w.compile(tp).Ok?
      then c == templates[tp := w.compile(tp).value]
      else c == templates
  }

  /** A refused path is answered 403 "Forbidden" without looking at the
      files, the engines or the cache: two worlds give the same answer. */
  lemma ForbiddenIgnoresWorld(trail: Trail, templates: Cache, env: Env, w1: World, w2: World)
    requires Refused(env)
    ensures Handle(trail, templates, env, w1) == Handle(trail, templates, env, w2) == (Ok(Forbidden()), templates)
    ensures Forbidden().status == 403 && Forbidden().body == ["Forbidden"]
  {
  }

  /** The page branch answers 404 exactly when no page candidate exists and
      otherwise 200 with the rendered body (or lets a fault escape). */
  lemma ServeOutcomes(trail: Trail, templates: Cache, lp: string, env: Env, w: World)
    ensures var (r, _) := Serve(trail, templates, lp, env, w);
            r.Ok? ==> (r.value.status == 200 || r.value.status == 404) && WellFormed(r.value)
    ensures var (r, _) := Serve(trail, templates, lp, env, w);
            r.Ok? && r.value.status == 404 <==> FindTemplatePath(trail, w.files, lp).None?
    ensures var (r, _) := Serve(trail, templates, lp, env, w);
            r.Ok? && r.value.status == 200 ==>
              exists tp, t :: && FindTemplatePath(trail, w.files, lp) == Some(tp)
                              && TemplateLookup(templates, tp, w.development, w.compile).0 == Ok(t)
                              && w.render(t, env) == Ok(r.value.body[0])
  {
    match FindTemplatePath(trail, w.files, lp)
    case None =>
      ResponsesWellFormed("");
    case Some(tp) =>
      var t := TemplateLookup(templates, tp, w.development, w.compile).0;
      if t.Ok? && w.render(t.value, env).Ok? {
        ResponsesWellFormed(w.render(t.value, env).value);
      }
  }

  /** Conversely, a found page whose template is obtained and renders is
      answered 200 with exactly that body, and the cache is what
      `template_for` left. */
  lemma ServeRendered(trail: Trail, templates: Cache, lp: string, env: Env, w: World, tp: Path, t: Template, body: string)
    requires FindTemplatePath(trail, w.files, lp) == Some(tp)
    requires TemplateLookup(templates, tp, w.development, w.compile).0 == Ok(t)
    requires w.render(t, env) == Ok(body)
    ensures Serve(trail, templates, lp, env, w)
            == (Ok(Success(body)), TemplateLookup(templates, tp, w.development, w.compile).1)
    ensures Success(body).status == 200 && Success(body).body == [body]
  {
  }

  /** Every response `call` produces is 200, 403 or 404 and well formed. */
  lemma HandleStatuses(trail: Trail, templates: Cache, env: Env, w: World)
    ensures var (r, _) := Handle(trail, templates, env, w);
            r.Ok? ==> (r.value.status == 200 || r.value.status == 403 || r.value.status == 404) && WellFormed(r.value)
  {
    ResponsesWellFormed("");
    if Admitted(env) && LogicalPath(env["PATH_INFO"]).Some? {
      ServeOutcomes(trail, templates, LogicalPath(env["PATH_INFO"]).value, env, w);
    }
  }

  /** `call` answers 403 exactly for refused paths, 404 exactly when no page
      candidate of the logical path exists, and 200 with the rendered body. */
  lemma HandleStatusMeaning(trail: Trail, templates: Cache, env: Env, w: World)
    ensures var (r, _) := Handle(trail, templates, env, w);
            r.Ok? && r.value.status == 403 <==> Refused(env)
    ensures var (r, _) := Handle(trail, templates, env, w);
            r.Ok? && r.value.status == 404 <==>
              && Admitted(env)
              && LogicalPath(env["PATH_INFO"]).Some?
              && FindTemplatePath(trail, w.files, LogicalPath(env["PATH_INFO"]).value).None?
    ensures var (r, _) := Handle(trail, templates, env, w);
            r.Ok? && r.value.status == 200 ==>
              && Admitted(env)
              && LogicalPath(env["PATH_INFO"]).Some? && |r.value.body| == 1
              && exists tp, t :: && FindTemplatePath(trail, w.files, LogicalPath(env["PATH_INFO"]).value) == Some(tp)
                              && TemplateLookup(templates, tp, w.development, w.compile).0 == Ok(t)
                              && w.render(t, env) == Ok(r.value.body[0])
  {
    if Admitted(env) && LogicalPath(env["PATH_INFO"]).Some? {
      PageBranchMeaning(trail, templates, env, w, LogicalPath(env["PATH_INFO"]).value);
    } else {
      assert Handle(trail, templates, env, w).0.Err? || Handle(trail, templates, env, w).0 == Ok(Forbidden());
    }
  }

  /** On a request that reaches the page branch, `call` answers as that
      branch does, so never 403. */
  lemma PageBranchMeaning(trail: Trail, templates: Cache, env: Env, w: World, lp: string)
    requires Admitted(env) && LogicalPath(env["PATH_INFO"]) == Some(lp)
    ensures Handle(trail, templates, env, w) == Serve(trail, templates, lp, env, w)
    ensures var (r, _) := Serve(trail, templates, lp, env, w);
            && (r.Ok? ==> r.value.status != 403)
            && (r.Ok? && r.value.status == 404 <==> FindTemplatePath(trail, w.files, lp).None?)
            && (r.Ok? && r.value.status == 200 ==>
                  exists tp, t :: && FindTemplatePath(trail, w.files, lp) == Some(tp)
                                  && TemplateLookup(templates, tp, w.development, w.compile).0 == Ok(t)
                                  && w.render(t, env) == Ok(r.value.body[0]))
  {
    ServeOutcomes(trail, templates, lp, env, w);
  }

  /** Conversely, an admitted request whose page is found, obtained and
      rendered is answered 200 with exactly that body. */
  lemma HandleRendered(trail: Trail, templates: Cache, env: Env, w: World, lp: string, tp: Path, t: Template, body: string)
    requires Admitted(env) && LogicalPath(env["PATH_INFO"]) == Some(lp)
    requires FindTemplatePath(trail, w.files, lp) == Some(tp)
    requires TemplateLookup(templates, tp, w.development, w.compile).0 == Ok(t)
    requires w.render(t, env) == Ok(body)
    ensures Handle(trail, templates, env, w)
            == (Ok(Success(body)), TemplateLookup(templates, tp, w.development, w.compile).1)
  {
    ServeRendered(trail, templates, lp, env, w, tp, t, body);
  }

  /** The faults `call` lets escape, each tied to its cause: no `PATH_INFO`
      or no logical path (nil receiver), a NUL character in an unrefused
      path, or the compile or render of the page `find` resolved. */
  lemma HandleFaults(trail: Trail, templates: Cache, env: Env, w: World)
    ensures "PATH_INFO" !in env ==> Handle(trail, templates, env, w) == (Err(NilReceiver), templates)
    ensures "PATH_INFO" in env && (env["PATH_INFO"] == "" || env["PATH_INFO"] == ".")
            ==> Handle(trail, templates, env, w) == (Err(NilReceiver), templates)
    ensures "PATH_INFO" in env && ForbiddenCheck(env["PATH_INFO"]).Err?
            ==> Handle(trail, templates, env, w) == (Err(NullByte), templates)
    ensures var (r, _) := Handle(trail, templates, env, w);
            r.Err? ==> || ("PATH_INFO" !in env && r.fault == NilReceiver)
                       || ("PATH_INFO" in env && ForbiddenCheck(env["PATH_INFO"]).Err? && r.fault == NullByte)
                       || (Admitted(env) && LogicalPath(env["PATH_INFO"]).None? && r.fault == NilReceiver)
                       || (&& Admitted(env) && LogicalPath(env["PATH_INFO"]).Some?
                           && PageFault(trail, templates, LogicalPath(env["PATH_INFO"]).value, env, w, r.fault))
  {
    HandleByPath(trail, templates, env, w);
    if "PATH_INFO" in env {
      NoLogicalPath(env["PATH_INFO"]);
      if Admitted(env) && LogicalPath(env["PATH_INFO"]).Some? {
        ServeFaults(trail, templates, LogicalPath(env["PATH_INFO"]).value, env, w);
      }
    }
  }

  /** The branch `call` takes, case by case. */
  lemma HandleByPath(trail: Trail, templates: Cache, env: Env, w: World)
    ensures "PATH_INFO" !in env ==> Handle(trail, templates, env, w) == (Err(NilReceiver), templates)
    ensures "PATH_INFO" in env && ForbiddenCheck(env["PATH_INFO"]).Err?
            ==> Handle(trail, templates, env, w) == (Err(ForbiddenCheck(env["PATH_INFO"]).fault), templates)
    ensures Refused(env) ==> Handle(trail, templates, env, w) == (Ok(Forbidden()), templates)
    ensures Admitted(env) && LogicalPath(env["PATH_INFO"]).None?
            ==> Handle(trail, templates, env, w) == (Err(NilReceiver), templates)
    ensures Admitted(env) && LogicalPath(env["PATH_INFO"]).Some?
            ==> Handle(trail, templates, env, w) == Serve(trail, templates, LogicalPath(env["PATH_INFO"]).value, env, w)
  {
  }

  lemma NoLogicalPath(path: string)
    ensures path == "" || path == "." ==> ForbiddenCheck(path) == Ok(false) && LogicalPath(path).None?
  {
    if path == "" {
      EmptyAdmitted();
    }
    if path == "." {
      SingleDotAdmitted();
    }
  }

  /** The page branch raises exactly the fault its compile or render of the
      resolved page raised. */
  lemma ServeFaults(trail: Trail, templates: Cache, lp: string, env: Env, w: World)
    ensures var (r, _) := Serve(trail, templates, lp, env, w);
            r.Err? ==> PageFault(trail, templates, lp, env, w, r.fault)
    ensures forall f :: PageFault(trail, templates, lp, env, w, f) ==> Serve(trail, templates, lp, env, w).0 == Err(f)
  {
  }

  /** The cache changes only in the page branch, and there exactly as
      `PageStores` says: by the one resolved page, in production, when it
      was missing and compiles. */
  lemma HandleCacheDiscipline(trail: Trail, templates: Cache, env: Env, w: World)
    ensures var (_, c) := Handle(trail, templates, env, w);
            if Admitted(env) && LogicalPath(env["PATH_INFO"]).Some?
            then PageStores(trail, templates, LogicalPath(env["PATH_INFO"]).value, w, c)
            else c == templates
  {
    if Admitted(env) && LogicalPath(env["PATH_INFO"]).Some? {
      ServeCacheDiscipline(trail, templates, LogicalPath(env["PATH_INFO"]).value, env, w);
    }
  }

  lemma ServeCacheDiscipline(trail: Trail, templates: Cache, lp: string, env: Env, w: World)
    ensures PageStores(trail, templates, lp, w, Serve(trail, templates, lp, env, w).1)
  {
  }

  /** `/foo.json` is served like `/foo`: an extension free of '.', '/',
      line breaks and NUL changes neither the verdict of `forbidden?` nor
      the template that is looked up. */
  lemma ExtensionIgnored(trail: Trail, templates: Cache, env: Env, w: World, p: string, ext: string)
    requires p != [] && p[|p| - 1] != '/'
    requires forall j :: 0 <= j < |p| ==> p[j] != '.'
    requires forall j :: 0 <= j < |ext| ==> ext[j] != '.' && ext[j] != '/' && ext[j] != '\n' && ext[j] != '\0'
    ensures ForbiddenCheck(p + "." + ext) == ForbiddenCheck(p)
    ensures LogicalPath(p + "." + ext) == LogicalPath(p) == Some(p)
    ensures ForbiddenCheck(p) == Ok(false) ==>
              Handle(trail, templates, env["PATH_INFO" := p + "." + ext], w)
              == Serve(trail, templates, p, env["PATH_INFO" := p + "." + ext], w)
  {
    CheckIgnoresExtension(p, ext);
    LogicalPathIgnoresExtension(p, ext);
  }

  // ---------------------------------------------------------------------
  // The application object.

  class Application {
    /** The template trail (`@template_trail`): its search roots. */
    const trail: Trail
    /** `@templates`. */
    var templates: Cache

    constructor (trail: Trail)
      ensures this.trail == trail && templates == map[]
    {
      this.trail := trail;
      templates := map[];
    }

    /** `template_for(template_path)`. */
    method TemplateFor(path: Path, development: bool, compile: Path -> Result<Template>) returns (r: Result<Template>)
      modifies this
      ensures (r, templates) == TemplateLookup(old(templates), path, development, compile)
    {
      if development {
        r := compile(path);
      } else if path in templates {
        r := Ok(templates[path]);
      } else {
        r := compile(path);
        if r.Ok? {
          templates := templates[path := r.value];
        }
      }
    }

    /** `find_template(logical_path)`: `Ok(None)` (nil) when no page
      candidate exists, the cache then unchanged. */
    method FindTemplate(logicalPath: string, w: World) returns (r: Result<Option<Template>>)
      modifies this
      ensures match FindTemplatePath(trail, w.files, logicalPath)
              case None => r == Ok(None) && templates == old(templates)
              case Some(tp) =>
                var (t, c) := TemplateLookup(old(templates), tp, w.development, w.compile);
                templates == c && r == (if t.Ok? then Ok(Some(t.value)) else Err(t.fault))
    {
      var tp := FindTemplatePath(trail, w.files, logicalPath);
      if tp.None? {
        r := Ok(None);
      } else {
        var t := TemplateFor(tp.value, w.development, w.compile);
        r := if t.Ok? then Ok(Some(t.value)) else Err(t.fault);
      }
    }

    /** `find_partial(logical_path)`: as `find_template`, for the partial's
      single candidate; a logical path made only of '/' raises. */
    method FindPartial(logicalPath: string, w: World) returns (r: Result<Option<Template>>)
      modifies this
      ensures match FindPartialPath(trail, w.files, logicalPath)
              case Err(f) => r == Err(f) && templates == old(templates)
              case Ok(None) => r == Ok(None) && templates == old(templates)
              case Ok(Some(tp)) =>
                var (t, c) := TemplateLookup(old(templates), tp, w.development, w.compile);
                templates == c && r == (if t.Ok? then Ok(Some(t.value)) else Err(t.fault))
    {
      var found := FindPartialPath(trail, w.files, logicalPath);
      if found.Err? {
        r := Err(found.fault);
      } else if found.value.None? {
        r := Ok(None);
      } else {
        var t := TemplateFor(found.value.value, w.development, w.compile);
        r := if t.Ok? then Ok(Some(t.value)) else Err(t.fault);
      }
    }

    /** `call(env)`. */
    method Call(env: Env, w: World) returns (r: Result<Response>)
      modifies this
      ensures (r, templates) == Handle(trail, old(templates), env, w)
    {
      HandleByPath(trail, templates, env, w);
      if "PATH_INFO" !in env {
        return Err(NilReceiver);
      }
      var path := env["PATH_INFO"];
      var verdict := ForbiddenCheck(path);
      if verdict.Err? {
        return Err(verdict.fault);
      }
      if verdict.value {
        return Ok(Forbidden());
      }
      var lp := LogicalPath(path);
      if lp.None? {
        return Err(NilReceiver);
      }
      var template := FindTemplate(lp.value, w);
      match template
      case Err(f) => r := Err(f);
      case Ok(None) => r := Ok(NotFound());
      case Ok(Some(t)) =>
        var body := w.render(t, env);
        r := if body.Ok? then Ok(Success(body.value)) else Err(body.fault);
    }
  }
}
