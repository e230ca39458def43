/** The pieces of Ruby's core String, Regexp, File and Integer behaviour that
    the application relies on, written out over `seq<char>`:
    `s[".."]`, `s[/^_/]`, `s[/[^.]+/]`, `File.basename(s)`,
    `s.split("/")`, `parts.join("/")` and `n.to_s`. */
module RubyString {
  import opened Base

  // ---------------------------------------------------------------------
  // s[".."]: is ".." a substring of s?

  /** `s[".."]` is truthy exactly when two consecutive dots occur in `s`. */
  function IncludesDotDot(s: string): (r: bool)
    ensures r <==> exists i :: 0 <= i < |s| - 1 && s[i] == '.' && s[i + 1] == '.'
  {
    if |s| < 2 then false
    else if s[0] == '.' && s[1] == '.' then true
    else
      var tail := IncludesDotDot(s[1..]);
      assert forall i :: 1 <= i < |s| - 1 ==> s[i] == s[1..][i - 1] && s[i + 1] == s[1..][i];
      tail
  }

  // ---------------------------------------------------------------------
  // s[/^_/]: Ruby's `^` anchors at the start of ANY line of s, that is at
  // index 0 and right after every "\n".

  /** Position `i` of `s` begins a line in Ruby's regular-expression sense. */
  predicate LineStart(s: string, i: int)
    requires 0 <= i <= |s|
  {
    i == 0 || s[i - 1] == '\n'
  }

  /** The regexp scan behind `s[/^_/]`, from position `i` onwards. */
  function ScanCaretUnderscore(s: string, i: nat): (r: bool)
    requires i <= |s|
    ensures r <==> exists j :: i <= j < |s| && s[j] == '_' && LineStart(s, j)
    decreases |s| - i
  {
    if i == |s| then false
    else if s[i] == '_' && LineStart(s, i) then true
    else ScanCaretUnderscore(s, i + 1)
  }

  /** `s[/^_/]` is truthy exactly when some line of `s` starts with `_`. */
  function MatchesCaretUnderscore(s: string): (r: bool)
    ensures r <==> exists i :: 0 <= i < |s| && s[i] == '_' && LineStart(s, i)
  {
    ScanCaretUnderscore(s, 0)
  }

  // ---------------------------------------------------------------------
  // s[/[^.]+/]: the leftmost maximal run of characters other than '.'.

  /** The longest prefix of `s` that holds no '.'. */
  function TakeNonDots(s: string): (r: string)
    ensures |r| <= |s| && r == s[..|r|]
    ensures forall j :: 0 <= j < |r| ==> r[j] != '.'
    ensures |r| == |s| || s[|r|] == '.'
  {
    if s == [] || s[0] == '.' then []
    else [s[0]] + TakeNonDots(s[1..])
  }

  /** The number of dots `s` starts with. */
  function LeadingDots(s: string): (k: nat)
    ensures k <= |s| && forall j :: 0 <= j < k ==> s[j] == '.'
    ensures k == |s| || s[k] != '.'
  {
    if s != [] && s[0] == '.' then 1 + LeadingDots(s[1..]) else 0
  }

  /** `s[/[^.]+/]`: `None` (Ruby's nil) when `s` holds nothing but dots,
      otherwise the first maximal run of non-dot characters: it starts after
      the leading dots of `s` and ends at the next dot or at the end. */
  function FirstNonDotRun(s: string): (r: Option<string>)
    ensures r.None? <==> forall j :: 0 <= j < |s| ==> s[j] == '.'
    ensures r.Some? ==> r.value != [] && forall j :: 0 <= j < |r.value| ==> r.value[j] != '.'
    ensures r.Some? ==> var k := LeadingDots(s);
                        && k + |r.value| <= |s|
                        && s[k..k + |r.value|] == r.value
                        && (k + |r.value| == |s| || s[k + |r.value|] == '.')
  {
    var k := LeadingDots(s);
    if k == |s| then None
    else
      var run := TakeNonDots(s[k..]);
      assert s[k..k + |run|] == s[k..][..|run|];
      Some(run)
  }

  // ---------------------------------------------------------------------
  // File.basename(s) on a POSIX system: the last non-empty component after
  // trailing slashes are dropped; "/" for a path made only of slashes, and ""
  // for the empty path.

  /** `s` without its trailing '/' characters. */
  function StripTrailingSlashes(s: string): (r: string)
    ensures |r| <= |s| && r == s[..|r|]
    ensures r == [] || r[|r| - 1] != '/'
    ensures forall j :: |r| <= j < |s| ==> s[j] == '/'
  {
    if s != [] && s[|s| - 1] == '/' then StripTrailingSlashes(s[..|s| - 1]) else s
  }

  /** The characters of `s` after its last '/' (all of `s` if it has none). */
  function LastSegment(s: string): (r: string)
    ensures |r| <= |s| && r == s[|s| - |r|..]
    ensures forall j :: 0 <= j < |r| ==> r[j] != '/'
    ensures |r| == |s| || s[|s| - |r| - 1] == '/'
  {
    if s == [] || s[|s| - 1] == '/' then []
    else LastSegment(s[..|s| - 1]) + [s[|s| - 1]]
  }

  /** `File.basename(s)`. */
  function Basename(s: string): (r: string)
    ensures r == [] <==> s == []
    ensures r != "/" ==> forall j :: 0 <= j < |r| ==> r[j] != '/'
  {
    if s == [] then ""
    else
      var stripped := StripTrailingSlashes(s);
      if stripped == [] then "/" else LastSegment(stripped)
  }

  /** A segment without '/' after a '/' is the basename, whatever precedes it. */
  lemma {:induction false} BasenameAfterSlash(d: string, name: string)
    requires name != [] && forall j :: 0 <= j < |name| ==> name[j] != '/'
    ensures Basename(d + "/" + name) == name
    ensures LastSegment(d + "/" + name) == name
  {
    LastSegmentAfterSlash(d, name);
  }

  lemma LastSegmentAfterSlash(d: string, name: string)
    requires forall j :: 0 <= j < |name| ==> name[j] != '/'
    ensures LastSegment(d + "/" + name) == name
  {
    var s := d + "/";
    assert s[|s| - 1] == '/';
    assert LastSegment(s) == [];
    LastSegmentAppend(s, name);
    assert [] + name == name;
  }

  /** Without any '/', the basename of a non-empty string is the string. */
  lemma {:induction false} BasenameNoSlash(name: string)
    requires name != [] && forall j :: 0 <= j < |name| ==> name[j] != '/'
    ensures Basename(name) == name
    ensures LastSegment(name) == name
  {
    LastSegmentNoSlash(name);
  }

  lemma LastSegmentNoSlash(name: string)
    requires forall j :: 0 <= j < |name| ==> name[j] != '/'
    ensures LastSegment(name) == name
  {
    LastSegmentAppend([], name);
    assert [] + name == name;
  }

  /** Appending text without '/' to a path that does not end in '/' extends
      its basename by that text. */
  lemma {:induction false} BasenameAppend(s: string, ext: string)
    requires s != [] && s[|s| - 1] != '/'
    requires forall j :: 0 <= j < |ext| ==> ext[j] != '/'
    ensures Basename(s + ext) == Basename(s) + ext
  {
    LastSegmentAppend(s, ext);
    assert StripTrailingSlashes(s) == s;
    var t := s + ext;
    assert t[|t| - 1] != '/';
    assert StripTrailingSlashes(t) == t;
  }

  lemma {:induction false} LastSegmentAppend(s: string, ext: string)
    requires forall j :: 0 <= j < |ext| ==> ext[j] != '/'
    ensures LastSegment(s + ext) == LastSegment(s) + ext
    decreases |ext|
  {
    if ext == [] {
      AppendFront(s, ext);
      AppendFront(LastSegment(s), ext);
    } else {
      AppendFront(s, ext);
      AppendFront(LastSegment(s), ext);
      LastSegmentSnoc(s, ext[0]);
      LastSegmentAppend(s + [ext[0]], ext[1..]);
    }
  }

  /** Appending `ext` is appending its first character, then the rest. */
  lemma AppendFront(s: string, ext: string)
    ensures ext == [] ==> s + ext == s
    ensures ext != [] ==> s + ext == s + [ext[0]] + ext[1..]
    ensures forall j :: 0 <= j < |ext| - 1 ==> ext[1..][j] == ext[j + 1]
  {
    if ext != [] {
      assert ext == [ext[0]] + ext[1..];
    }
  }

  /** One more character other than '/' extends the last segment. */
  lemma LastSegmentSnoc(s: string, c: char)
    requires c != '/'
    ensures LastSegment(s + [c]) == LastSegment(s) + [c]
  {
    var t := s + [c];
    assert t[..|t| - 1] == s;
  }


  // ---------------------------------------------------------------------
  // s.split("/") and parts.join("/")

  /** Every piece between '/' characters, empty pieces included. */
  function SplitAll(s: string): (r: seq<string>)
    ensures |r| >= 1
  {
    if s == [] then [""]
    else
      var rest := SplitAll(s[1..]);
      if s[0] == '/' then [""] + rest
      else [[s[0]] + rest[0]] + rest[1..]
  }

  /** `parts.join("/")`. */
  function Join(parts: seq<string>): string
  {
    if |parts| == 0 then ""
    else if |parts| == 1 then parts[0]
    else parts[0] + "/" + Join(parts[1..])
  }

  /** Ruby drops the trailing empty pieces of a split. */
  function DropTrailingEmpty(parts: seq<string>): (r: seq<string>)
    ensures |r| <= |parts| && r == parts[..|r|]
    ensures r == [] || r[|r| - 1] != ""
    ensures forall j :: |r| <= j < |parts| ==> parts[j] == ""
  {
    if parts != [] && parts[|parts| - 1] == "" then DropTrailingEmpty(parts[..|parts| - 1])
    else parts
  }

  /** `s.split("/")`: the '/'-separated pieces of `s`, trailing empty
      pieces removed; no piece contains '/' and the last one is non-empty. */
  function Split(s: string): (r: seq<string>)
    ensures r == [] || r[|r| - 1] != ""
  {
    DropTrailingEmpty(SplitAll(s))
  }

  /** No piece of a split holds the separator. */
  lemma {:induction false} SplitAllPiecesNoSlash(s: string)
    ensures forall i, j :: 0 <= i < |SplitAll(s)| && 0 <= j < |SplitAll(s)[i]| ==> SplitAll(s)[i][j] != '/'
  {
    if s != [] {
      SplitAllPiecesNoSlash(s[1..]);
      var rest := SplitAll(s[1..]);
      if s[0] != '/' {
        var r := [[s[0]] + rest[0]] + rest[1..];
        assert forall i :: 1 <= i < |r| ==> r[i] == rest[i];
        assert forall j :: 1 <= j < |r[0]| ==> r[0][j] == rest[0][j - 1];
      }
    }
  }

  /** No piece of `s.split("/")` holds '/'. */
  lemma SplitPiecesNoSlash(s: string)
    ensures forall i, j :: 0 <= i < |Split(s)| && 0 <= j < |Split(s)[i]| ==> Split(s)[i][j] != '/'
  {
    SplitAllPiecesNoSlash(s);
    var parts := Split(s);
    assert forall i :: 0 <= i < |parts| ==> parts[i] == SplitAll(s)[i];
  }

  /** Joining the pieces of a split restores the string. */
  lemma {:induction false} JoinSplitAll(s: string)
    ensures Join(SplitAll(s)) == s
  {
    if s != [] {
      JoinSplitAll(s[1..]);
      var rest := SplitAll(s[1..]);
      if s[0] == '/' {
        assert [""] + rest == [""] + rest[0..];
        assert ([""] + rest)[1..] == rest;
      } else {
        var r := [[s[0]] + rest[0]] + rest[1..];
        if |rest| == 1 {
          assert Join(r) == [s[0]] + rest[0];
        } else {
          assert r[1..] == rest[1..];
          assert Join(rest) == rest[0] + "/" + Join(rest[1..]);
        }
        assert s == [s[0]] + s[1..];
      }
    }
  }

  /** Splitting at a '/' splits each side separately. */
  lemma {:induction false} SplitAllAtSlash(a: string, b: string)
    ensures SplitAll(a + "/" + b) == SplitAll(a) + SplitAll(b)
  {
    if a == [] {
      assert a + "/" + b == "/" + b;
      assert ("/" + b)[1..] == b;
    } else {
      var t := a + "/" + b;
      assert t[1..] == a[1..] + "/" + b;
      SplitAllAtSlash(a[1..], b);
    }
  }

  /** A string without '/' is a single piece. */
  lemma {:induction false} SplitAllNoSlash(name: string)
    requires forall j :: 0 <= j < |name| ==> name[j] != '/'
    ensures SplitAll(name) == [name]
  {
    if name != [] {
      SplitAllNoSlash(name[1..]);
      assert name == [name[0]] + name[1..];
    }
  }

  /** Joining one more piece adds a '/' and the piece. */
  lemma {:induction false} JoinSnoc(xs: seq<string>, y: string)
    requires xs != []
    ensures Join(xs + [y]) == Join(xs) + "/" + y
  {
    if |xs| > 1 {
      assert (xs + [y])[1..] == xs[1..] + [y];
      JoinSnoc(xs[1..], y);
    }
  }

  // ---------------------------------------------------------------------
  // Integer#to_s and its inverse.

  predicate IsDigit(c: char) { '0' <= c <= '9' }

  predicate AllDigits(s: string) { forall j :: 0 <= j < |s| ==> IsDigit(s[j]) }

  function DigitChar(d: nat): (c: char)
    requires d < 10
    ensures IsDigit(c) && c as int - '0' as int == d
  {
    ('0' as int + d) as char
  }

  /** `n.to_s`: the decimal numeral of `n`, without leading zeros. */
  function DecimalString(n: nat): (r: string)
    ensures r != [] && AllDigits(r)
    ensures r[0] == '0' ==> r == "0"
  {
    if n < 10 then [DigitChar(n)]
    else DecimalString(n / 10) + [DigitChar(n % 10)]
  }

  /** The value of a decimal numeral. */
  function ParseDecimal(s: string): nat
    requires AllDigits(s)
  {
    if s == [] then 0
    else ParseDecimal(s[..|s| - 1]) * 10 + (s[|s| - 1] as int - '0' as int)
  }

  /** `n.to_s` reads back as `n`. */
  lemma {:induction false} ParseDecimalString(n: nat)
    ensures ParseDecimal(DecimalString(n)) == n
  {
    var s := DecimalString(n);
    if n < 10 {
      assert s[..|s| - 1] == [];
    } else {
      assert s[..|s| - 1] == DecimalString(n / 10);
      ParseDecimalString(n / 10);
    }
  }
}
