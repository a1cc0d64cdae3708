/** Classification of the path strings the site generator passes around (file
    paths, full slugs, simple slugs, relative URLs) and the rewrite that turns a
    title-like path into a slug. Every member is a pure function of its input. */
module Path {
  import opened Wrappers
  import opened JsString

  /** `.` followed by one or more ASCII letters or digits, and nothing else. */
  predicate IsExtension(e: string) {
    |e| >= 2 && e[0] == '.' && forall k :: 1 <= k < |e| ==> IsAsciiAlnum(e[k])
  }

  /** Length of the longest run of ASCII letters and digits that ends `s`. */
  function AlnumRun(s: string): (n: nat)
    ensures n <= |s|
    ensures forall k :: |s| - n <= k < |s| ==> IsAsciiAlnum(s[k])
    ensures n < |s| ==> !IsAsciiAlnum(s[|s| - n - 1])
  {
    if s == [] || !IsAsciiAlnum(s[|s| - 1]) then 0 else AlnumRun(s[..|s| - 1]) + 1
  }

  /** `getFileExtension`: the match of `/\.[A-Za-z0-9]+$/` in `s`, if there is one.
      The result is the one suffix of `s` that is an extension. */
  function GetFileExtension(s: string): (r: Option<string>)
    ensures r.Some? ==> EndsWith(s, r.value) && IsExtension(r.value)
    ensures forall i :: 0 <= i <= |s| && IsExtension(s[i..]) ==> r == Some(s[i..])
  {
    var n := AlnumRun(s);
    assert forall i :: 0 <= i <= |s| && IsExtension(s[i..]) ==> i == |s| - n - 1 by {
      forall i | 0 <= i <= |s| && IsExtension(s[i..]) ensures i == |s| - n - 1 {
        assert s[i] == s[i..][0];
      }
    }
    if 0 < n < |s| && s[|s| - n - 1] == '.' then Some(s[|s| - n - 1..]) else None
  }

  /** `_hasFileExtension` */
  predicate HasFileExtension(s: string) {
    GetFileExtension(s).Some?
  }

  /** `containsForbiddenCharacters`: the characters that carry meaning in URL parameters. */
  predicate ContainsForbiddenCharacters(s: string) {
    ' ' in s || '#' in s || '?' in s || '&' in s
  }

  /** `endsWith`: `s` is `suffix` or ends with `"/" + suffix`; unlike `String.prototype.endsWith`
      it matches whole path segments only. */
  predicate EndsWithSegment(s: string, suffix: string) {
    s == suffix || EndsWith(s, "/" + suffix)
  }

  /** `isFilePath`: not relative, and has a file extension. */
  predicate IsFilePath(s: string) {
    !StartsWith(s, ".") && HasFileExtension(s)
  }

  /** `isFullSlug`: not relative, no leading or trailing slash, no URL-parameter characters. */
  predicate IsFullSlug(s: string) {
    var validateStart := !(StartsWith(s, ".") || StartsWith(s, "/"));
    var validateEnding := !EndsWith(s, "/");
    validateStart && validateEnding && !ContainsForbiddenCharacters(s)
  }

  /** `isSimpleSlug`: not relative, no leading slash unless it is "/" itself, no final
      `index` segment, no file extension, no URL-parameter characters. */
  predicate IsSimpleSlug(s: string) {
    var validateStart := !(StartsWith(s, ".") || (|s| > 1 && StartsWith(s, "/")));
    var validateEnding := !EndsWithSegment(s, "index");
    validateStart && !ContainsForbiddenCharacters(s) && validateEnding && !HasFileExtension(s)
  }

  /** `isRelativeURL`: starts with `.` (the test `/^\.{1,2}/` needs only one), no final
      `index` segment, and an extension other than `.md` and `.html` if any. */
  predicate IsRelativeURL(s: string) {
    var validateStart := StartsWith(s, ".");
    var validateEnding := !EndsWithSegment(s, "index");
    var ext := match GetFileExtension(s) case Some(e) => e case None => "";
    validateStart && validateEnding && ext !in [".md", ".html"]
  }

  lemma FilePathMeaning(s: string)
    ensures IsFilePath(s) <==> (s == [] || s[0] != '.') && exists i :: 0 <= i <= |s| && IsExtension(s[i..])
  {
  }

  lemma FullSlugMeaning(s: string)
    ensures IsFullSlug(s) <==>
      (s == [] || (s[0] != '.' && s[0] != '/' && s[|s| - 1] != '/'))
      && ' ' !in s && '#' !in s && '?' !in s && '&' !in s
  {
  }

  lemma EndsWithSegmentMeaning(s: string, suffix: string)
    ensures EndsWithSegment(s, suffix) <==>
      s == suffix || (|s| > |suffix| && s[|s| - |suffix| - 1] == '/' && EndsWith(s, suffix))
  {
  }

  lemma EndsWithSegmentExamples()
    ensures !EndsWithSegment("myindex", "index")
    ensures EndsWithSegment("notes/index", "index")
    ensures EndsWithSegment("index", "index")
  {
    assert "notes/index"[5..] == "/index";
    assert "myindex"[1..][0] == 'y';
  }

  /** `isSimpleSlug(s)` holds iff `s` is not relative, starts with `/` only when it is
      `"/"`, holds no URL-parameter character, has no final `index` segment and no
      extension. */
  lemma SimpleSlugMeaning(s: string)
    ensures IsSimpleSlug(s) <==>
      (s == [] || (s[0] != '.' && (|s| == 1 || s[0] != '/')))
      && ' ' !in s && '#' !in s && '?' !in s && '&' !in s
      && !EndsWithSegment(s, "index")
      && !(exists i :: 0 <= i <= |s| && IsExtension(s[i..]))
  {
    if s != [] {
      assert StartsWith(s, ".") <==> s[0] == '.';
      assert StartsWith(s, "/") <==> s[0] == '/';
    }
    if HasFileExtension(s) {
      var e := GetFileExtension(s).value;
      assert IsExtension(s[|s| - |e|..]);
    }
  }

  lemma SimpleSlugStart(s: string)
    ensures IsSimpleSlug("/")
    ensures StartsWith(s, ".") ==> !IsSimpleSlug(s)
    ensures |s| > 1 && s[0] == '/' ==> !IsSimpleSlug(s)
    ensures EndsWithSegment(s, "index") || HasFileExtension(s) ==> !IsSimpleSlug(s)
  {
    if |s| > 1 && s[0] == '/' {
      assert StartsWith(s, "/");
    }
    assert GetFileExtension("/") == None by {
      assert AlnumRun("/") == 0;
    }
  }

  /** A simple slug may end with a slash, marking a folder. */
  lemma SimpleSlugTrailingSlash()
    ensures IsSimpleSlug("notes/")
  {
    var s := "notes/";
    assert AlnumRun(s) == 0;
    assert !HasFileExtension(s);
    assert s[..1] == "n";
    assert !StartsWith(s, ".") && !StartsWith(s, "/");
    assert s != "index" && s[|s| - 6..] != "/index";
    assert !EndsWithSegment(s, "index");
    assert forall k :: 0 <= k < |s| ==> s[k] in "notes/";
    assert !ContainsForbiddenCharacters(s);
  }

  /** No string is both a simple slug and a file path. */
  lemma SimpleSlugIsNoFilePath(s: string)
    ensures !(IsSimpleSlug(s) && IsFilePath(s))
  {
  }

  /** An extension that ends `s` is what `getFileExtension` returns. */
  lemma ExtensionOf(s: string, e: string)
    requires EndsWith(s, e) && IsExtension(e)
    ensures GetFileExtension(s) == Some(e)
  {
  }

  /** The extension test of `isRelativeURL` rejects exactly the strings ending with
      `.md` or `.html`. */
  lemma RelativeUrlExtension(s: string)
    ensures (match GetFileExtension(s) case Some(e) => e case None => "") in [".md", ".html"]
      <==> EndsWith(s, ".md") || EndsWith(s, ".html")
  {
    if EndsWith(s, ".md") {
      ExtensionOf(s, ".md");
    } else if EndsWith(s, ".html") {
      ExtensionOf(s, ".html");
    } else {
      match GetFileExtension(s)
      case None =>
      case Some(e) =>
        assert EndsWith(s, e);
    }
  }

  /** `isRelativeURL(s)` holds iff `s` starts with `.`, has no final `index` segment,
      and does not end with `.md` or `.html`. */
  lemma RelativeUrlMeaning(s: string)
    ensures IsRelativeURL(s) <==>
      |s| > 0 && s[0] == '.' && !EndsWithSegment(s, "index")
      && !EndsWith(s, ".md") && !EndsWith(s, ".html")
  {
    if |s| > 0 {
      assert StartsWith(s, ".") <==> s[0] == '.';
    }
    RelativeUrlExtension(s);
  }

  /** No string is both a relative URL and a full slug. */
  lemma RelativeUrlIsNoFullSlug(s: string)
    ensures !(IsRelativeURL(s) && IsFullSlug(s))
  {
  }

  // ---------------------------------------------------------------- sluggify

  predicate IsAmpersand(c: char) { c == '&' }
  predicate IsPercent(c: char) { c == '%' }
  predicate IsQuestionMark(c: char) { c == '?' }
  predicate IsHash(c: char) { c == '#' }

  /** `s.replace(re, replacement)` where the global regular expression `re` matches single
      characters, those for which `matches` holds. */
  function ReplaceAll(s: string, matches: char -> bool, replacement: string): (r: string)
    ensures forall k :: 0 <= k < |r| ==> r[k] in replacement || (r[k] in s && !matches(r[k]))
  {
    if s == [] then []
    else (if matches(s[0]) then replacement else [s[0]]) + ReplaceAll(s[1..], matches, replacement)
  }

  /** The five replacements `sluggify` applies to one segment, in their order. */
  function SluggifySegment(segment: string): string {
    var spaced := ReplaceAll(segment, IsWhiteSpace, "-");
    var anded := ReplaceAll(spaced, IsAmpersand, "-and-");
    var percented := ReplaceAll(anded, IsPercent, "-percent");
    var unqueried := ReplaceAll(percented, IsQuestionMark, "");
    ReplaceAll(unqueried, IsHash, "")
  }

  /** `segments.map(...)` */
  function MapSegments(segments: seq<string>): (r: seq<string>)
    ensures |r| == |segments|
  {
    if segments == [] then [] else [SluggifySegment(segments[0])] + MapSegments(segments[1..])
  }

  /** `.replace(/\/$/, "")`: drop one trailing slash. */
  function DropTrailingSlash(s: string): string {
    if |s| > 0 && s[|s| - 1] == '/' then s[..|s| - 1] else s
  }

  /** `sluggify` */
  function Sluggify(s: string): string {
    DropTrailingSlash(Join(MapSegments(Split(s, '/')), '/'))
  }

  /** Reference definition: what each character of the input turns into. */
  function SlugChar(c: char): string {
    if IsWhiteSpace(c) then "-"
    else if c == '&' then "-and-"
    else if c == '%' then "-percent"
    else if c == '?' || c == '#' then ""
    else [c]
  }

  /** Reference definition: every character rewritten independently, slashes included. */
  function Rewrite(s: string): string {
    if s == [] then [] else SlugChar(s[0]) + Rewrite(s[1..])
  }

  lemma {:induction false} RewriteAppend(a: string, b: string)
    ensures Rewrite(a + b) == Rewrite(a) + Rewrite(b)
  {
    if a == [] {
      assert a + b == b;
    } else {
      assert (a + b)[1..] == a[1..] + b;
      RewriteAppend(a[1..], b);
    }
  }

  lemma {:induction false} ReplaceAllAppend(a: string, b: string, matches: char -> bool, replacement: string)
    ensures ReplaceAll(a + b, matches, replacement) == ReplaceAll(a, matches, replacement) + ReplaceAll(b, matches, replacement)
  {
    if a == [] {
      assert a + b == b;
    } else {
      assert (a + b)[1..] == a[1..] + b;
      ReplaceAllAppend(a[1..], b, matches, replacement);
    }
  }

  lemma {:induction false} ReplaceAllNoMatch(s: string, matches: char -> bool, replacement: string)
    requires forall k :: 0 <= k < |s| ==> !matches(s[k])
    ensures ReplaceAll(s, matches, replacement) == s
  {
    if s != [] {
      ReplaceAllNoMatch(s[1..], matches, replacement);
      assert [s[0]] + s[1..] == s;
    }
  }

  lemma SluggifySegmentAppend(a: string, b: string)
    ensures SluggifySegment(a + b) == SluggifySegment(a) + SluggifySegment(b)
  {
    var s1a, s1b := ReplaceAll(a, IsWhiteSpace, "-"), ReplaceAll(b, IsWhiteSpace, "-");
    ReplaceAllAppend(a, b, IsWhiteSpace, "-");
    var s2a, s2b := ReplaceAll(s1a, IsAmpersand, "-and-"), ReplaceAll(s1b, IsAmpersand, "-and-");
    ReplaceAllAppend(s1a, s1b, IsAmpersand, "-and-");
    var s3a, s3b := ReplaceAll(s2a, IsPercent, "-percent"), ReplaceAll(s2b, IsPercent, "-percent");
    ReplaceAllAppend(s2a, s2b, IsPercent, "-percent");
    var s4a, s4b := ReplaceAll(s3a, IsQuestionMark, ""), ReplaceAll(s3b, IsQuestionMark, "");
    ReplaceAllAppend(s3a, s3b, IsQuestionMark, "");
    ReplaceAllAppend(s4a, s4b, IsHash, "");
  }

  lemma ReplaceAllChar(c: char, matches: char -> bool, replacement: string)
    ensures ReplaceAll([c], matches, replacement) == if matches(c) then replacement else [c]
  {
  }

  /** The four passes after the white-space one leave alone text without `&`, `%`, `?`, `#`. */
  lemma LaterPassesKeep(t: string)
    requires forall k :: 0 <= k < |t| ==> t[k] !in "&%?#"
    ensures ReplaceAll(ReplaceAll(ReplaceAll(ReplaceAll(t, IsAmpersand, "-and-"),
              IsPercent, "-percent"), IsQuestionMark, ""), IsHash, "") == t
  {
    ReplaceAllNoMatch(t, IsAmpersand, "-and-");
    ReplaceAllNoMatch(t, IsPercent, "-percent");
    ReplaceAllNoMatch(t, IsQuestionMark, "");
    ReplaceAllNoMatch(t, IsHash, "");
  }

  lemma SluggifySegmentSpace(c: char)
    requires IsWhiteSpace(c)
    ensures SluggifySegment([c]) == "-"
  {
    ReplaceAllChar(c, IsWhiteSpace, "-");
    LaterPassesKeep("-");
  }

  /** The first two passes leave alone a character that is neither white space nor `&`. */
  lemma FirstPassesKeep(c: char)
    requires !IsWhiteSpace(c) && c != '&'
    ensures ReplaceAll(ReplaceAll([c], IsWhiteSpace, "-"), IsAmpersand, "-and-") == [c]
  {
    ReplaceAllChar(c, IsWhiteSpace, "-");
    ReplaceAllChar(c, IsAmpersand, "-and-");
  }

  lemma SluggifySegmentAmpersand(c: char)
    requires c == '&'
    ensures SluggifySegment([c]) == "-and-"
  {
    var s1 := ReplaceAll([c], IsWhiteSpace, "-");
    ReplaceAllChar(c, IsWhiteSpace, "-");
    assert s1 == [c];
    var s2 := ReplaceAll(s1, IsAmpersand, "-and-");
    ReplaceAllChar(c, IsAmpersand, "-and-");
    assert s2 == "-and-";
    LaterPassesKeep(s2);
    ReplaceAllNoMatch(s2, IsAmpersand, "-and-");
  }

  /** The last two passes leave alone text without `?` and `#`. */
  lemma LastPassesKeep(t: string)
    requires forall k :: 0 <= k < |t| ==> t[k] != '?' && t[k] != '#'
    ensures ReplaceAll(ReplaceAll(t, IsQuestionMark, ""), IsHash, "") == t
  {
    ReplaceAllNoMatch(t, IsQuestionMark, "");
    ReplaceAllNoMatch(t, IsHash, "");
  }

  lemma SluggifySegmentPercent(c: char)
    requires c == '%'
    ensures SluggifySegment([c]) == "-percent"
  {
    var s1 := ReplaceAll([c], IsWhiteSpace, "-");
    var s2 := ReplaceAll(s1, IsAmpersand, "-and-");
    FirstPassesKeep(c);
    assert s2 == [c];
    var s3 := ReplaceAll(s2, IsPercent, "-percent");
    ReplaceAllChar(c, IsPercent, "-percent");
    assert s3 == "-percent";
    LastPassesKeep(s3);
  }

  lemma SluggifySegmentOther(c: char)
    requires !IsWhiteSpace(c) && c != '&' && c != '%'
    ensures SluggifySegment([c]) == if c == '?' || c == '#' then "" else [c]
  {
    ReplaceAllChar(c, IsWhiteSpace, "-");
    ReplaceAllChar(c, IsAmpersand, "-and-");
    ReplaceAllChar(c, IsPercent, "-percent");
    ReplaceAllChar(c, IsQuestionMark, "");
    if c == '?' {
      assert ReplaceAll([], IsHash, "") == [];
    } else {
      ReplaceAllChar(c, IsHash, "");
    }
  }

  lemma SluggifySegmentChar(c: char)
    ensures SluggifySegment([c]) == SlugChar(c)
  {
    if IsWhiteSpace(c) {
      SluggifySegmentSpace(c);
    } else if c == '&' {
      SluggifySegmentAmpersand(c);
    } else if c == '%' {
      SluggifySegmentPercent(c);
    } else {
      SluggifySegmentOther(c);
    }
  }

  /** The five replacements on a segment rewrite each character independently. */
  lemma {:induction false} SluggifySegmentIsRewrite(segment: string)
    ensures SluggifySegment(segment) == Rewrite(segment)
  {
    if segment == [] {
    } else {
      assert segment == [segment[0]] + segment[1..];
      SluggifySegmentAppend([segment[0]], segment[1..]);
      SluggifySegmentChar(segment[0]);
      SluggifySegmentIsRewrite(segment[1..]);
    }
  }

  lemma {:induction false} JoinMapSegments(parts: seq<string>)
    ensures Join(MapSegments(parts), '/') == Rewrite(Join(parts, '/'))
  {
    if |parts| == 1 {
      SluggifySegmentIsRewrite(parts[0]);
    } else if |parts| > 1 {
      JoinMapSegments(parts[1..]);
      SluggifySegmentIsRewrite(parts[0]);
      RewriteAppend(parts[0] + ['/'], Join(parts[1..], '/'));
      RewriteAppend(parts[0], ['/']);
      assert Rewrite(['/']) == ['/'];
    }
  }

  /** `sluggify` equals the per-character rewrite of the whole path with one trailing
      slash dropped: splitting at `/` and joining again changes nothing else. */
  lemma SluggifyIsRewrite(s: string)
    ensures Sluggify(s) == DropTrailingSlash(Rewrite(s))
  {
    JoinMapSegments(Split(s, '/'));
    JoinSplit(s, '/');
  }

  lemma {:induction false} RewriteHasNoForbidden(s: string)
    ensures forall k :: 0 <= k < |Rewrite(s)| ==>
      !IsWhiteSpace(Rewrite(s)[k]) && Rewrite(s)[k] !in "&%?#"
  {
    if s != [] {
      RewriteHasNoForbidden(s[1..]);
      var h := SlugChar(s[0]);
      assert forall k :: 0 <= k < |h| ==> !IsWhiteSpace(h[k]) && h[k] !in "&%?#";
    }
  }

  /** The output of `sluggify` holds no white space, `&`, `%`, `?` or `#`; in
      particular it contains none of the characters the slug guards forbid. */
  lemma SluggifyHasNoForbidden(s: string)
    ensures forall k :: 0 <= k < |Sluggify(s)| ==>
      !IsWhiteSpace(Sluggify(s)[k]) && Sluggify(s)[k] !in "&%?#"
    ensures !ContainsForbiddenCharacters(Sluggify(s))
  {
    SluggifyIsRewrite(s);
    RewriteHasNoForbidden(s);
    var r := Sluggify(s);
    assert forall k :: 0 <= k < |r| ==> r[k] == Rewrite(s)[k];
    assert ' ' !in r by {
      assert IsWhiteSpace(' ');
    }
  }

  lemma {:induction false} RewriteKeepsSlashes(s: string)
    ensures Count(Rewrite(s), '/') == Count(s, '/')
  {
    if s != [] {
      RewriteKeepsSlashes(s[1..]);
      CountAppend(SlugChar(s[0]), Rewrite(s[1..]), '/');
      if s[0] != '/' {
        CountAbsent(SlugChar(s[0]), '/');
      }
    }
  }

  lemma DropTrailingSlashCount(w: string)
    ensures Count(DropTrailingSlash(w), '/') == Count(w, '/') - (if EndsWith(w, "/") then 1 else 0)
  {
    if |w| > 0 && w[|w| - 1] == '/' {
      assert w == w[..|w| - 1] + ['/'];
      CountAppend(w[..|w| - 1], ['/'], '/');
    }
  }

  lemma RewriteTrailingSlash(s: string)
    requires EndsWith(s, "/")
    ensures EndsWith(Rewrite(s), "/")
  {
    var p := s[..|s| - 1];
    assert s == p + ['/'];
    RewriteAppend(p, ['/']);
    assert Rewrite(['/']) == ['/'];
  }

  /** The replacements never add or remove a `/`; the only slash `sluggify` drops is
      one trailing slash of the rewritten path, and a path ending in `/` loses exactly that. */
  lemma SluggifySlashes(s: string)
    ensures Count(Sluggify(s), '/') ==
      Count(s, '/') - (if EndsWith(Rewrite(s), "/") then 1 else 0)
    ensures EndsWith(s, "/") ==> Count(Sluggify(s), '/') + 1 == Count(s, '/')
  {
    SluggifyIsRewrite(s);
    RewriteKeepsSlashes(s);
    DropTrailingSlashCount(Rewrite(s));
    if EndsWith(s, "/") {
      RewriteTrailingSlash(s);
    }
  }

  lemma RewriteExample()
    ensures Rewrite("a b/c&d/") == "a-b/c-and-d/"
  {
    var r8 := Rewrite("/");
    assert r8 == "/";
    var r7 := Rewrite("d/");
    assert r7 == "d" + r8;
    var r6 := Rewrite("&d/");
    assert r6 == "-and-" + r7;
    var r5 := Rewrite("c&d/");
    assert r5 == "c" + r6;
    var r4 := Rewrite("/c&d/");
    assert r4 == "/" + r5;
    var r3 := Rewrite("b/c&d/");
    assert r3 == "b" + r4;
    var r2 := Rewrite(" b/c&d/");
    assert r2 == "-" + r3;
    assert Rewrite("a b/c&d/") == "a" + r2;
  }

  lemma SluggifyExample()
    ensures Sluggify("a b/c&d/") == "a-b/c-and-d"
  {
    SluggifyIsRewrite("a b/c&d/");
    RewriteExample();
  }
}
