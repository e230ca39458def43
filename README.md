# Brochure application core in Dafny

This project models the request-dispatch and template-resolution core of
`Brochure::Application`, a small Rack application that serves HTML pages
from a directory of templates. A request path goes through four steps:

- **Refuse.** A path containing `..`, or whose basename starts with `_`
  (a partial), is refused with 403 "Forbidden".
- **Logical path.** Otherwise the logical path is the first run of
  characters other than '.', so `/about.json` becomes `/about`.
- **Find a page.** The template is the first of `/about.html` and
  `/about/index.html` found on the template trail. None found means 404.
- **Serve.** The template is compiled, cached in production mode, rendered
  and answered with 200.

Partials are found the same way. `/nav/menu` gives the single candidate
`/nav/_menu.html`.

The model is organised in these modules:

- `Base`: the shared datatypes. These are `Option`, `Result`, the `Fault`
  kinds a Ruby call can raise, and `Template`.
- `RubyString`: the Ruby core operations the source relies on, each
  defined with Ruby's semantics and proved about:
  - `String#[]` with a substring, and with `/^_/` (where `^` anchors at the
    start of every line) and `/[^.]+/`;
  - the POSIX `File.basename`;
  - `split("/")`, which drops trailing empty pieces;
  - `join("/")`;
  - `Integer#to_s`.
- `Hike`: the trail's `find` as an abstract "first existing file"
  function. The file system is a set of existing paths. Candidates are
  tried in order, and for each candidate the roots in order.
- `Locator`: `forbidden?`, the logical path, `find_template_path` and
  `find_partial_path`.
- `Responses`: `respond_with`, `success`, `not_found` and `forbidden`.
- `Brochure`: the rest.
  - The `@templates` cache discipline of `template_for`, as the function
    `TemplateLookup`.
  - The dispatcher `call`, as the function `Handle`.
  - The class `Application`, which holds the cache as a `map` field. Its
    methods `TemplateFor`, `FindTemplate`, `FindPartial` and `Call` update
    the field and are proved against those functions.
- `Findings`: a request path that reaches a partial, and a corrected
  dispatcher that does not serve it.

The world outside the application is passed in explicitly as a `World`
value. It holds:

- the set of existing files;
- the development flag (`Brochure.development?`);
- `Tilt.new` as a compile function that may fail;
- `template.render` as a function of the template and the request
  environment that may fail.

A Ruby exception that escapes `call` is an `Err` result:

- `NoMethodError` on `nil` is `NilReceiver`;
- `"_" + nil` is `NilConversion`;
- the `ArgumentError` that `File.basename` raises on a path holding a NUL
  character is `NullByte`. `forbidden?` only reaches `File.basename` when
  `path[".."]` found nothing, so a NUL in a path with `..` still gets 403;
- the template engine's own errors are `EngineError(message)`, carried
  through as they are.

Two details of the responses, as the code writes them:

- The Content-Type is the literal `text/html, charset=utf-8`, with a comma
  where the usual header has `;` (lib/brochure/application.rb:78).
- `Content-Length` is `body.length.to_s`, a count of the string's
  characters, not of its bytes (lib/brochure/application.rb:81).

## Model

| member | source | states |
|---|---|---|
| Locator.IsForbidden | lib/brochure/application.rb:38-40 | `forbidden?` as a truth value; its meaning is stated by `ForbiddenMeaning` and `ForbiddenSingleLine` below |
| Locator.ForbiddenCheck | lib/brochure/application.rb:38-40 | `forbidden?` as it runs: it raises (`NullByte`) exactly when the path has no `..` and holds a NUL, and otherwise answers `IsForbidden` |
| Locator.AllDotsAdmitted | lib/brochure/application.rb:29-39 | of the paths made only of dots, exactly "" and "." pass `forbidden?`; every longer one holds `..` and gets 403 |
| Locator.ForbiddenMeaning | lib/brochure/application.rb:38-40 | a path is refused exactly when it holds two consecutive dots or some line of its basename starts with `_` |
| Locator.ForbiddenSingleLine | lib/brochure/application.rb:38-40 | for a path without line breaks, refused exactly when it contains `..` or its basename is non-empty and starts with `_` |
| Locator.ForbiddenUnderscoreBasename | lib/brochure/application.rb:39 | a basename starting with `_` always makes the path refused |
| Locator.BasenameChars | lib/brochure/application.rb:39 | every character of the basename occurs in the path |
| RubyString.Basename | lib/brochure/application.rb:39 | `File.basename` is empty only for the empty path and holds no '/' unless it is "/" itself |
| RubyString.IncludesDotDot | lib/brochure/application.rb:39 | `path[".."]` finds a match exactly when two consecutive dots occur somewhere |
| RubyString.MatchesCaretUnderscore | lib/brochure/application.rb:39 | `/^_/` matches exactly when a `_` sits at the start of the string or right after a line break |
| Locator.CaretIgnoresSuffix | lib/brochure/application.rb:39 | a suffix without line breaks and not starting with `_` does not change whether `/^_/` matches |
| RubyString.FirstNonDotRun | lib/brochure/application.rb:31 | `[/[^.]+/]` is `nil` exactly when the string is all dots; otherwise it is the non-empty dot-free run that starts right after the leading dots and ends at a '.' or the end |
| Locator.LogicalPath | lib/brochure/application.rb:31 | `nil` exactly when the path is all dots; otherwise a non-empty string free of '.' |
| Locator.LogicalPathIsPrefix | lib/brochure/application.rb:31 | when the path does not start with '.', the logical path is its longest dot-free prefix |
| Locator.LogicalPathIgnoresExtension | lib/brochure/application.rb:31 | `p.ext` and `p` have the same logical path, namely `p` |
| Locator.ForbiddenIgnoresExtension | lib/brochure/application.rb:38-40 | for a dot-free `p` not ending in '/' and an extension without '.', '/' or line breaks, `p.ext` is refused exactly when `p` is |
| Locator.CheckIgnoresExtension | lib/brochure/application.rb:38-40 | with an extension that also holds no NUL, `forbidden?` on `p.ext` raises or answers exactly as on `p` |
| Locator.SingleDotNoDotDot | lib/brochure/application.rb:39 | joining two dot-free strings with one '.' never produces `..` |
| Hike.Find | lib/brochure/application.rb:56 | `None` exactly when no candidate exists under any root; otherwise an existing file that is the first hit in candidate-then-root order |
| Hike.FindReturnsFirstHit | lib/brochure/application.rb:56 | the search returns exactly the first hit |
| Hike.FirstHitUnique | lib/brochure/application.rb:56 | there is at most one first hit |
| Hike.EarliestRoot | lib/brochure/application.rb:56 | a candidate present under some root has an earliest root holding it |
| Locator.TemplateCandidates | lib/brochure/application.rb:55 | the two page candidates `p.html` then `p/index.html`; `TemplatePrefersHtml` and `TemplateFallsBackToIndex` state the order in which they are tried |
| Locator.FindTemplatePath | lib/brochure/application.rb:54-57 | `nil` exactly when neither `p.html` nor `p/index.html` exists under any root; otherwise one of the two under some root |
| Locator.TemplatePrefersHtml | lib/brochure/application.rb:55-56 | if `p.html` exists under a root, the result is `p.html` under the earliest root holding it, even when `p/index.html` also exists |
| Locator.TemplateFallsBackToIndex | lib/brochure/application.rb:55-56 | with no `p.html` anywhere, the result is `p/index.html` under the earliest root holding it |
| Locator.FindPartialPath | lib/brochure/application.rb:59-63 | raises exactly when the candidate cannot be built; otherwise looks up exactly that single candidate and returns it under some root or `nil` |
| Locator.PartialStem | lib/brochure/application.rb:61 | the pieces but the last, then `_` and the last piece, joined with '/'; `PartialStemLast` states its last segment |
| Locator.PartialCandidate | lib/brochure/application.rb:60-62 | the single partial candidate, or the `"_" + nil` fault; `PartialCandidateFails`, `PartialCandidateInDirectory` and `PartialCandidateBareName` state its cases |
| Locator.PartialCandidateFails | lib/brochure/application.rb:60-61 | building the candidate raises (`"_" + nil`) exactly when the logical path consists only of '/' |
| Locator.PartialCandidateInDirectory | lib/brochure/application.rb:60-62 | `dir/name` gives `dir/_name.html`: the directory part is unchanged and only the last piece gains `_` |
| Locator.PartialCandidateBareName | lib/brochure/application.rb:60-62 | a single name gives `_name.html` |
| Locator.PartialStemLast | lib/brochure/application.rb:61 | the rejoined stem's last segment and basename are the last piece prefixed with `_` |
| Locator.PartialStemForbidden | lib/brochure/application.rb:59-63 | every partial candidate is `stem + ".html"`, and a request for that stem would be refused |
| Locator.PartialLastSegment | lib/brochure/application.rb:61-62 | the last segment of a partial candidate starts with `_` |
| Locator.PartialNotAPageCandidate | lib/brochure/application.rb:55-62 | no partial candidate is a page candidate of a logical path that is not itself refused |
| RubyString.Split | lib/brochure/application.rb:60 | `split("/")` never ends in an empty piece |
| RubyString.JoinSplitAll | lib/brochure/application.rb:60-61 | joining the pieces of a full split with '/' gives back the string |
| RubyString.SplitPiecesNoSlash | lib/brochure/application.rb:60 | no piece of a split holds a '/' |
| Brochure.TemplateLookup | lib/brochure/application.rb:65-71 | development mode compiles afresh and leaves the cache alone. Production mode returns a stored template without compiling, or compiles on a miss and stores only a success. Only the looked-up path can gain an entry, and no entry is replaced |
| Brochure.SecondLookupReusesTemplate | lib/brochure/application.rb:69 | in production a second lookup of the same path returns the first stored template, whatever the compiler now gives, and leaves the cache as it was |
| Brochure.DevelopmentSeesEdits | lib/brochure/application.rb:66-67 | in development a second lookup returns a fresh compile and the cache never changes |
| Brochure.Application.TemplateFor | lib/brochure/application.rb:65-71 | the result and the new cache are those of `TemplateLookup` on the old cache |
| Brochure.Application.FindTemplate | lib/brochure/application.rb:42-46 | `nil` with an unchanged cache when no page candidate exists; otherwise the lookup of the found path, its fault raised |
| Brochure.Application.FindPartial | lib/brochure/application.rb:48-52 | as `FindTemplate`, but for the partial's single candidate; raises with an unchanged cache when the candidate cannot be built |
| Brochure.Application.Call | lib/brochure/application.rb:28-36 | the response and the new cache are those of `Handle` on the old cache |
| Brochure.Application.constructor | lib/brochure/application.rb:16 | a new application starts with an empty cache |
| Brochure.Handle | lib/brochure/application.rb:28-36 | `call`: the answer and the new cache; what they mean is stated by the `Handle…` lemmas below |
| Brochure.Serve | lib/brochure/application.rb:31-35 | the `find_template` branch of `call`; what it means is stated by the `Serve…` lemmas below |
| Brochure.ForbiddenIgnoresWorld | lib/brochure/application.rb:29-30 | a refused path gets 403 "Forbidden" with the cache unchanged, whatever files, mode or engines exist |
| Brochure.HandleStatusMeaning | lib/brochure/application.rb:28-36 | 403 exactly for refused paths. 404 exactly when the path is admitted, has a logical path, and no page candidate of it exists. 200 only for an admitted path, with the body the renderer gave for the template looked up at the found page |
| Brochure.HandleRendered | lib/brochure/application.rb:28-36 | conversely, an admitted path whose page is found, whose template is obtained and whose render succeeds gets 200 with exactly that body, and the cache `template_for` left |
| Brochure.HandleStatuses | lib/brochure/application.rb:28-36 | every response is 200, 403 or 404 and well formed |
| Brochure.ServeOutcomes | lib/brochure/application.rb:31-35 | the page branch answers 200 or 404, well formed; 404 exactly when no page candidate exists; 200 only with the render of the template looked up at the found page |
| Brochure.ServeRendered | lib/brochure/application.rb:31-35 | conversely, a found page whose template is obtained and renders gets 200 with exactly that body, and the cache `template_for` left |
| Brochure.HandleFaults | lib/brochure/application.rb:28-39 | a missing `PATH_INFO`, "" and "." raise on `nil`; an unrefused path with a NUL raises `NullByte`; every fault is one of these, or a path without logical path, or exactly the fault of compiling or rendering the page found for the logical path |
| Brochure.ServeFaults | lib/brochure/application.rb:31-35 | the page branch raises exactly the fault of compiling the found page or of rendering its template, and raises whenever one of them fails |
| Brochure.HandleCacheDiscipline | lib/brochure/application.rb:28-71 | outside the page branch the cache is unchanged; in it, the cache gains exactly the found page's template when in production it was missing and compiles, and is otherwise unchanged (partials compiled while rendering are not modelled) |
| Brochure.ServeCacheDiscipline | lib/brochure/application.rb:31-71 | the same exact cache outcome for the page branch alone |
| Brochure.ExtensionIgnored | lib/brochure/application.rb:29-31 | for an extension without '.', '/', line breaks or NUL, `forbidden?` on `p.ext` raises or answers exactly as on `p`, and an admitted `p.ext` is served as the logical path `p` |
| Responses.RespondWith | lib/brochure/application.rb:78-84 | the given status and a one-element body. The header keys are exactly `Content-Type` and `Content-Length`. The length header is all digits and parses back to the body's character count |
| RubyString.DecimalString | lib/brochure/application.rb:81 | `to_s` of a count is non-empty, all digits and without a leading zero unless it is "0" |
| RubyString.ParseDecimalString | lib/brochure/application.rb:81 | `to_s` of a count parses back to the count |
| Responses.Success | lib/brochure/application.rb:86-88 | 200, the given body, the HTML content type |
| Responses.NotFound | lib/brochure/application.rb:90-96 | 404 with one body part containing the heading "404 Not Found" |
| Responses.Forbidden | lib/brochure/application.rb:98-100 | 403, body "Forbidden", length header "9" |
| Responses.ResponsesWellFormed | lib/brochure/application.rb:78-100 | all three responses are well formed, and a success's length header is the decimal count of its body |
| Findings.PartialServedDirectly | lib/brochure/application.rb:29-31 | `/_header.x/y` is not refused and its logical path is `/_header`, the partial file of `/header`. With `_header.html` present, `call` answers 200 with the partial's rendering |
| Findings.HandleGuarded | lib/brochure/application.rb:28-36 | corrected `call`: answers 403 exactly when the request path or its logical path is refused |
| Findings.GuardedNeverServesPartial | lib/brochure/application.rb:29-62 | a request whose logical path is refused gets 403; otherwise it is served by the page branch, and no partial candidate of any logical path is among its page candidates |
| Findings.GuardedAgreesWithoutDot | lib/brochure/application.rb:28-36 | for request paths without '.', the corrected dispatcher answers exactly as `call` does |

## Left out

- `helpers` (lib/brochure/application.rb:19-26) is not modelled. It globs
  a directory, loads Ruby files and resolves constants by reflection, all
  of which is I/O and dynamic code loading.
- The constructor's root set-up is not modelled (lib/brochure/application.rb:5-15).
  This covers `File.expand_path`, `File.join`, the `Hike::Trail`
  configuration and `Context.for`. The application takes an abstract
  ordered root list.
- Hike implementation details are not modelled. Extension matching,
  aliases and path normalisation are left out. A candidate is joined to a
  root as `root + "/" + candidate` with one leading '/' removed; this join
  is an assumption, because Hike's code is not part of this model.
- The internals of `Tilt.new`, `template.render` and the render context are
  not modelled (lib/brochure/application.rb:67, 73-76). Render is an
  opaque function of the template and the request environment.
- Brochure.HandleCacheDiscipline and Brochure.ServeCacheDiscipline: in the
  source, partials compiled by `find_partial` during rendering also fill the
  cache. Render is opaque here and cannot touch the cache, so these two
  lemmas describe only a render that compiles no partial.
- The Ruby exception classes raised by Tilt are not told apart. Each is an
  `EngineError`, or whatever fault the compile or render function gives.
- `Brochure.development?` and `Brochure.camelize` are defined outside this
  file. The development mode is a field of `World`; `camelize` belongs to
  `helpers` only.
- Concurrent requests sharing the cache are not modelled. The model is
  sequential.
- Header map order is not modelled. Headers are a `map`, and the Ruby
  hash's insertion order does not matter to Rack.
- Encodings are not modelled. A rendered body is taken to be the sequence
  of units that Ruby's `String#length` counts: bytes for a binary string,
  code points for a UTF-8 one. `Content-Length` is the length of that
  sequence.

## Findings

| source | as written | input that shows it | evidently intended | confidence | as-written member | corrected member |
|---|---|---|---|---|---|---|
| lib/brochure/application.rb:29-31 | `forbidden?` checks the basename of the whole request path, but the template is looked up by the logical path, which is cut at the first '.' | `PATH_INFO` = `/_header.x/y` with `_header.html` on the trail: the basename `y` passes, the logical path `/_header` resolves to `_header.html`, and the partial is served with 200 | a partial is never served as a page: the refusal also applies to the logical path that is looked up | medium, not executed | Findings.PartialServedDirectly | Findings.HandleGuarded |
