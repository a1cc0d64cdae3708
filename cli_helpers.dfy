/** The command-line helpers: cleaning up a path typed into a shell, moving the
    content folder into a single-slot cache and back, and pulling upstream
    changes with git. */
module CliHelpers {
  import opened Wrappers
  import opened JsString

  // ------------------------------------------------------------- escapePath

  /** `.replace(/\\ /g, " ")`: scanning left to right, each backslash followed by
      a space becomes a plain space. */
  function UnescapeSpaces(s: string): (r: string)
    ensures |r| <= |s|
  {
    if s == [] then []
    else if |s| >= 2 && s[0] == '\\' && s[1] == ' ' then " " + UnescapeSpaces(s[2..])
    else [s[0]] + UnescapeSpaces(s[1..])
  }

  /** Shell escaping of spaces, the way a shell shows `My Favorite` as `My\ Favorite`. */
  function EscapeSpaces(t: string): (r: string)
    ensures r == [] || r[0] != ' '
    ensures |r| == |t| + Count(t, ' ')
  {
    if t == [] then [] else (if t[0] == ' ' then "\\ " else [t[0]]) + EscapeSpaces(t[1..])
  }

  /** Unescaping undoes shell escaping. */
  lemma {:induction false} UnescapeEscapeSpaces(t: string)
    ensures UnescapeSpaces(EscapeSpaces(t)) == t
  {
    if t != [] {
      var rest := EscapeSpaces(t[1..]);
      UnescapeEscapeSpaces(t[1..]);
      if t[0] == ' ' {
        assert EscapeSpaces(t) == "\\ " + rest;
        assert ("\\ " + rest)[2..] == rest;
      } else {
        assert EscapeSpaces(t) == [t[0]] + rest;
        assert ([t[0]] + rest)[1..] == rest;
      }
      assert t == [t[0]] + t[1..];
    }
  }

  /** Unescaping works piece by piece, unless the cut separates a backslash from
      the space after it. */
  lemma {:induction false} UnescapeSpacesAppend(a: string, b: string)
    requires !(|a| > 0 && a[|a| - 1] == '\\' && |b| > 0 && b[0] == ' ')
    ensures UnescapeSpaces(a + b) == UnescapeSpaces(a) + UnescapeSpaces(b)
    decreases |a|
  {
    if a == [] {
      assert a + b == b;
    } else if |a| >= 2 && a[0] == '\\' && a[1] == ' ' {
      UnescapeSpacesAppend(a[2..], b);
      UnescapePairStep(a, b);
    } else {
      assert a[1..] == [] || a[1..][|a[1..]| - 1] == a[|a| - 1];
      UnescapeSpacesAppend(a[1..], b);
      UnescapeCharStep(a, b);
    }
  }

  lemma UnescapePairStep(a: string, b: string)
    requires |a| >= 2 && a[0] == '\\' && a[1] == ' '
    ensures UnescapeSpaces(a + b) == " " + UnescapeSpaces(a[2..] + b)
    ensures UnescapeSpaces(a) == " " + UnescapeSpaces(a[2..])
  {
    var s := a + b;
    assert s[0] == a[0] && s[1] == a[1];
    assert s[2..] == a[2..] + b;
  }

  lemma UnescapeCharStep(a: string, b: string)
    requires a != [] && !(|a| >= 2 && a[0] == '\\' && a[1] == ' ')
    requires !(|a| > 0 && a[|a| - 1] == '\\' && |b| > 0 && b[0] == ' ')
    ensures UnescapeSpaces(a + b) == [a[0]] + UnescapeSpaces(a[1..] + b)
    ensures UnescapeSpaces(a) == [a[0]] + UnescapeSpaces(a[1..])
  {
    var c, u := a[0], a[1..];
    assert a == [c] + u;
    assert u == [] ==> a[|a| - 1] == c;
    UnescapeConsAppend(c, u, b);
    UnescapeConsAppend(c, u, []);
    assert u + [] == u;
    assert [c] + u + [] == a;
  }

  lemma UnescapeConsAppend(c: char, u: string, b: string)
    requires !(c == '\\' && u != [] && u[0] == ' ')
    requires !(u == [] && c == '\\' && b != [] && b[0] == ' ')
    ensures UnescapeSpaces([c] + u + b) == [c] + UnescapeSpaces(u + b)
  {
    var t := u + b;
    assert [c] + u + b == [c] + t;
    if u != [] {
      assert t[0] == u[0];
    } else if b != [] {
      assert t[0] == b[0];
    }
    UnescapeCons(c, t);
  }

  lemma UnescapeCons(c: char, t: string)
    requires !(c == '\\' && t != [] && t[0] == ' ')
    ensures UnescapeSpaces([c] + t) == [c] + UnescapeSpaces(t)
  {
    assert ([c] + t)[1..] == t;
  }

  /** Every backslash-space of the input turns into a plain space, wherever it stands. */
  lemma UnescapeEachEscapedSpace(a: string, b: string)
    ensures UnescapeSpaces(a + "\\ " + b) == UnescapeSpaces(a) + " " + UnescapeSpaces(b)
  {
    assert a + "\\ " + b == a + ("\\ " + b);
    UnescapeSpacesAppend(a, "\\ " + b);
    assert ("\\ " + b)[2..] == b;
  }

  /** A string without any backslash-space is left as it is. */
  lemma {:induction false} UnescapeSpacesNoEscape(s: string)
    requires forall k :: 0 <= k < |s| - 1 ==> !(s[k] == '\\' && s[k + 1] == ' ')
    ensures UnescapeSpaces(s) == s
  {
    if s != [] {
      UnescapeSpacesNoEscape(s[1..]);
      assert s == [s[0]] + s[1..];
    }
  }

  /** `.replace(/^q(.*)q$/, "$1")`: one pair of `q` is removed when it encloses the
      whole string and everything between is matched by `.`, which excludes line
      terminators. Otherwise the string is unchanged. */
  function StripEnclosing(s: string, q: char): (r: string)
    ensures r == s || (s == [q] + r + [q] && forall k :: 0 <= k < |r| ==> !IsLineTerminator(r[k]))
  {
    if |s| >= 2 && s[0] == q && s[|s| - 1] == q
       && forall k :: 1 <= k < |s| - 1 ==> !IsLineTerminator(s[k])
    then
      assert s == [q] + s[1..|s| - 1] + [q];
      s[1..|s| - 1]
    else s
  }

  /** Exactly one enclosing pair is removed from a quoted single-line string. */
  lemma StripEnclosingQuoted(t: string, q: char)
    requires forall k :: 0 <= k < |t| ==> !IsLineTerminator(t[k])
    ensures StripEnclosing([q] + t + [q], q) == t
  {
  }

  /** `escapePath`: unescape spaces, drop one pair of enclosing double quotes, then
      one pair of enclosing single quotes, then trim white space. */
  function EscapePath(fp: string): (r: string)
    ensures r == [] || (!IsWhiteSpace(r[0]) && !IsWhiteSpace(r[|r| - 1]))
  {
    Trim(StripEnclosing(StripEnclosing(UnescapeSpaces(fp), '"'), '\''))
  }

  /** `s` is wrapped in a pair of the quote `q`. */
  predicate WrappedIn(s: string, q: char) {
    |s| >= 2 && s[0] == q && s[|s| - 1] == q
  }

  /** A path the shell shows escaped, bare or in double quotes, comes back as typed,
      provided it is single-line, has no white space at its ends and is not itself
      wrapped in a pair of the quotes that would be stripped. */
  lemma EscapePathOfShellPath(t: string, quoted: bool)
    requires quoted ==> forall k :: 0 <= k < |t| ==> !IsLineTerminator(t[k])
    requires t == [] || (!IsWhiteSpace(t[0]) && !IsWhiteSpace(t[|t| - 1]))
    requires !WrappedIn(t, '\'') && (quoted || !WrappedIn(t, '"'))
    ensures EscapePath(if quoted then "\"" + EscapeSpaces(t) + "\"" else EscapeSpaces(t)) == t
  {
    UnescapeEscapeSpaces(t);
    var e := EscapeSpaces(t);
    if quoted {
      UnescapeSpacesAppend("\"", e);
      UnescapeSpacesAppend("\"" + e, "\"");
      assert UnescapeSpaces("\"") == "\"";
      StripEnclosingQuoted(t, '"');
    } else {
      assert StripEnclosing(t, '"') == t;
    }
    assert StripEnclosing(t, '\'') == t;
    TrimUnpadded(t);
  }

  /** Trimming comes after unescaping, so a shell-escaped space at the end of a path
      is lost: `foo\ ` comes back as `foo`. */
  lemma EscapePathDropsEscapedTrailingSpace(t: string)
    requires t != [] && !IsWhiteSpace(t[0]) && !IsWhiteSpace(t[|t| - 1])
    requires forall k :: 0 <= k < |t| - 1 ==> !(t[k] == '\\' && t[k + 1] == ' ')
    ensures EscapePath(t + "\\ ") == t
  {
    UnescapeSpacesAppend(t, "\\ ");
    UnescapeSpacesNoEscape(t);
    assert UnescapeSpaces("\\ ") == " ";
    var u := t + " ";
    assert UnescapeSpaces(t + "\\ ") == u;
    assert u[|u| - 1] == ' ';
    assert StripEnclosing(u, '"') == u;
    assert StripEnclosing(u, '\'') == u;
    TrimStartUnpadded(u);
    assert TrimEnd(u) == TrimEnd(t) by {
      assert IsWhiteSpace(u[|u| - 1]);
      assert u[..|u| - 1] == t;
    }
    assert TrimEnd(t) == t;
  }

  // --------------------------------------------- stashContentFolder / popContentFolder

  /** A file-system tree as `fs.promises.cp` sees it. */
  datatype Node =
    | File(data: seq<bv8>, mtime: int)
    | Symlink(target: string)
    | Directory(entries: seq<Entry>)

  datatype Entry = Entry(name: string, node: Node)

  /** The options of `fs.promises.cp` that change what lands at the destination. */
  datatype CopyOptions = CopyOptions(verbatimSymlinks: bool, preserveTimestamps: bool)

  /** Both helpers copy with `verbatimSymlinks` and `preserveTimestamps` set. */
  const HelperCopyOptions := CopyOptions(verbatimSymlinks := true, preserveTimestamps := true)

  /** The tree a recursive copy writes. `now` is the time of the copy; `resolve` is
      the rewriting of a link target that happens when targets are not kept verbatim. */
  function CopyTree(n: Node, opts: CopyOptions, now: int, resolve: string -> string): Node
    decreases n
  {
    match n
    case File(data, mtime) => File(data, if opts.preserveTimestamps then mtime else now)
    case Symlink(target) => Symlink(if opts.verbatimSymlinks then target else resolve(target))
    case Directory(entries) => Directory(CopyEntries(entries, opts, now, resolve))
  }

  function CopyEntries(es: seq<Entry>, opts: CopyOptions, now: int, resolve: string -> string): seq<Entry>
    decreases es
  {
    if es == [] then []
    else [Entry(es[0].name, CopyTree(es[0].node, opts, now, resolve))] + CopyEntries(es[1..], opts, now, resolve)
  }

  /** With the helpers' options a copy is exact: contents, timestamps and link targets. */
  lemma {:induction false} CopyTreeVerbatim(n: Node, now: int, resolve: string -> string)
    ensures CopyTree(n, HelperCopyOptions, now, resolve) == n
    decreases n
  {
    match n
    case File(_, _) =>
    case Symlink(_) =>
    case Directory(entries) => CopyEntriesVerbatim(entries, now, resolve);
  }

  lemma {:induction false} CopyEntriesVerbatim(es: seq<Entry>, now: int, resolve: string -> string)
    ensures CopyEntries(es, HelperCopyOptions, now, resolve) == es
    decreases es
  {
    if es != [] {
      CopyTreeVerbatim(es[0].node, now, resolve);
      CopyEntriesVerbatim(es[1..], now, resolve);
      assert es == [es[0]] + es[1..];
    }
  }

  /** Without those options a copy is not exact: a file's timestamp becomes the copy time. */
  lemma CopyTreeStampsFiles(data: seq<bv8>, mtime: int, now: int, resolve: string -> string)
    requires mtime != now
    ensures CopyTree(File(data, mtime), CopyOptions(true, false), now, resolve) != File(data, mtime)
  {
  }

  /** `cp` rejects a source that does not exist. */
  datatype FsError = NoSuchFileOrDirectory

  /** The content folder and the cache folder; `None` is a folder that does not exist. */
  datatype Folders = Folders(content: Option<Node>, cache: Option<Node>)

  /** What `stashContentFolder` leaves behind: the cache holds what the content folder
      held (nothing, if there was none), and the content folder is gone. */
  function Stashed(f: Folders): Folders {
    Folders(None, f.content)
  }

  /** What `popContentFolder` leaves behind: the content folder holds what the cache
      held (nothing, if there was none), and the cache is gone. */
  function Popped(f: Folders): Folders {
    Folders(f.cache, None)
  }

  /** Popping right after stashing gives back the content folder and an empty cache,
      whatever the cache held before. */
  lemma PopAfterStash(f: Folders)
    ensures Popped(Stashed(f)) == Folders(f.content, None)
  {
  }

  /** Stashing discards the old cache: two states that differ only in the cache
      stash to the same state. */
  lemma StashDiscardsCache(f: Folders, g: Folders)
    requires f.content == g.content
    ensures Stashed(f) == Stashed(g)
  {
  }

  /** The two folders on disk. Each helper is three steps (remove, copy, remove),
      and a failed step ends it, with the earlier steps done. */
  class ContentStore {
    var content: Option<Node>
    var cache: Option<Node>

    function State(): Folders
      reads this
    {
      Folders(content, cache)
    }

    constructor (content: Option<Node>, cache: Option<Node>)
      ensures State() == Folders(content, cache)
    {
      this.content := content;
      this.cache := cache;
    }

    /** `stashContentFolder`. A missing content folder is reported after the cache
        has been removed; a missing cache is not an error. */
    method Stash(now: int, resolve: string -> string) returns (result: Outcome<FsError>)
      modifies this
      ensures State() == Stashed(old(State()))
      ensures result == if old(content).Some? then Pass else Fail(NoSuchFileOrDirectory)
    {
      cache := None;
      if content.None? {
        return Fail(NoSuchFileOrDirectory);
      }
      CopyTreeVerbatim(content.value, now, resolve);
      cache := Some(CopyTree(content.value, HelperCopyOptions, now, resolve));
      content := None;
      return Pass;
    }

    /** `popContentFolder`. A missing cache is reported after the content folder has
        been removed, so the content folder is then gone too. */
    method Pop(now: int, resolve: string -> string) returns (result: Outcome<FsError>)
      modifies this
      ensures State() == Popped(old(State()))
      ensures result == if old(cache).Some? then Pass else Fail(NoSuchFileOrDirectory)
    {
      content := None;
      if cache.None? {
        return Fail(NoSuchFileOrDirectory);
      }
      CopyTreeVerbatim(cache.value, now, resolve);
      content := Some(CopyTree(cache.value, HelperCopyOptions, now, resolve));
      cache := None;
      return Pass;
    }
  }

  // ---------------------------------------------------------------- gitPull

  /** The merge policy: merge rather than rebase, stash local changes around the
      merge, recursive strategy keeping our side on conflicts, no editor. */
  const PullFlags: seq<string> := ["--no-rebase", "--autostash", "-s", "recursive", "-X", "ours", "--no-edit"]

  /** The arguments `gitPull` hands to `git`. */
  function GitPullArgs(origin: string, branch: string): (argv: seq<string>)
    ensures |argv| == 10 && argv[0] == "pull" && argv[1..8] == PullFlags
    ensures argv[8] == origin && argv[9] == branch
  {
    ["pull"] + PullFlags + [origin, branch]
  }

  /** The argument list names the remote and the branch unambiguously. */
  lemma GitPullArgsInjective(o1: string, b1: string, o2: string, b2: string)
    requires GitPullArgs(o1, b1) == GitPullArgs(o2, b2)
    ensures o1 == o2 && b1 == b2
  {
  }

  /** What `spawnSync` reports: `stderr` is a buffer (truthy even when empty) or null,
      `status` the exit code, or null when git was killed or could not start. */
  datatype SpawnResult = SpawnResult(stderr: Option<seq<bv8>>, status: Option<int>)

  datatype PullError = PullErrorWithOutput(output: seq<bv8>) | PullFailed

  /** How `gitPull` reads the result: captured error output wins, then any status but 0. */
  function GitPullOutcome(out: SpawnResult): (r: Outcome<PullError>)
    ensures r.Pass? <==> out.stderr.None? && out.status == Some(0)
    ensures out.stderr.Some? ==> r == Fail(PullErrorWithOutput(out.stderr.value))
    ensures out.stderr.None? && r.Fail? ==> r.error == PullFailed
  {
    if out.stderr.Some? then Fail(PullErrorWithOutput(out.stderr.value))
    else if out.status != Some(0) then Fail(PullFailed)
    else Pass
  }

  /** `gitPull`: run git with the pull arguments through `spawn` and classify the result. */
  function GitPull(origin: string, branch: string, spawn: (string, seq<string>) -> SpawnResult): (r: Outcome<PullError>)
    ensures r.Pass? <==> spawn("git", GitPullArgs(origin, branch)) == SpawnResult(None, Some(0))
  {
    GitPullOutcome(spawn("git", GitPullArgs(origin, branch)))
  }
}
