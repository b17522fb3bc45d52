/** Dir#git_repos: the local clones one level of nesting under a directory
    (the pattern path, subdir, any name, ".git"), each named by the last two segments of its path,
    `owner/repo`.

    Dir.glob is an input: a function from the pattern to the matching paths,
    in whatever order the filesystem gives them. */
module DirExt {
  import opened RubyCore

  predicate NoSlash(t: string)
  {
    forall k :: 0 <= k < |t| ==> t[k] != '/'
  }

  predicate IsSuffix(a: string, b: string) { |a| <= |b| && a == b[|b| - |a|..] }

  predicate StartsWithSlash(s: string) { |s| > 0 && s[0] == '/' }

  predicate EndsWithSlash(s: string) { |s| > 0 && s[|s| - 1] == '/' }

  // ---------------------------------------------------------------------------
  // File.join and File.dirname
  // ---------------------------------------------------------------------------

  /** `s` without its trailing run of slashes. */
  function ChompSlashes(s: string): (r: string)
    ensures |r| <= |s| && r == s[..|r|] && !EndsWithSlash(r)
    ensures forall k :: |r| <= k < |s| ==> s[k] == '/'
  {
    if EndsWithSlash(s) then ChompSlashes(s[..|s| - 1]) else s
  }

  /** One joint of File.join: a part starting with a slash replaces the
      trailing slashes of what came before; otherwise exactly one slash is
      put between the two. */
  function JoinPath(a: string, b: string): (r: string)
    ensures IsSuffix(b, r)
    ensures StartsWithSlash(b) || EndsWithSlash(r[..|r| - |b|])
  {
    if StartsWithSlash(b) then ChompSlashes(a) + b
    else if EndsWithSlash(a) then a + b
    else a + "/" + b
  }

  /** File.join: the parts joined left to right, one joint at a time. */
  function FileJoin(parts: seq<string>): (r: string)
    ensures parts != [] ==> IsSuffix(parts[|parts| - 1], r)
  {
    if parts == [] then ""
    else if |parts| == 1 then parts[0]
    else JoinPath(FileJoin(parts[..|parts| - 1]), parts[|parts| - 1])
  }

  /** The pattern git_repos hands to Dir.glob. */
  function GlobPattern(path: string, subdir: string := "*"): (r: string)
    ensures IsSuffix(".git", r)
  {
    FileJoin([path, subdir, "*", ".git"])
  }

  /** Whatever the directory and sub-directory pattern, the searched
      pattern ends in a wildcard segment and then ".git". */
  lemma GlobPatternSuffix(path: string, subdir: string)
    ensures IsSuffix("/*/.git", GlobPattern(path, subdir))
  {
    var star, marker := "*", ".git";
    FileJoinFour(path, subdir, star, marker);
    var x := JoinPath(path, subdir);
    var h := if EndsWithSlash(x) then x else x + "/";
    assert JoinPath(x, star) == h + star;
    assert JoinPath(h + star, marker) == h + star + "/" + marker;
    WildcardMarker(h[..|h| - 1], star, marker);
    assert h == h[..|h| - 1] + "/";
  }

  /** Anything followed by a wildcard segment and the marker segment ends
      in slash, wildcard, slash, ".git". */
  lemma WildcardMarker(h: string, star: string, marker: string)
    requires star == "*" && marker == ".git"
    ensures h + "/" + star + "/" + marker == h + "/*/.git"
    ensures IsSuffix("/*/.git", h + "/" + star + "/" + marker)
  {
    var r := h + "/" + star + "/" + marker;
    assert r[|r| - 7..] == "/" + star + "/" + marker;
  }

  /** File.join of four parts is three joints, left to right. */
  lemma FileJoinFour(a: string, b: string, c: string, d: string)
    ensures FileJoin([a, b, c, d]) == JoinPath(JoinPath(JoinPath(a, b), c), d)
  {
    var two, three, four := [a, b], [a, b, c], [a, b, c, d];
    assert two[..1] == [a];
    assert FileJoin(two) == JoinPath(a, b);
    assert three[..2] == two;
    assert FileJoin(three) == JoinPath(JoinPath(a, b), c);
    assert four[..3] == three;
  }

  /** Trailing slashes are dropped alike with or without one more. */
  lemma ChompSlashesOfSlash(a: string)
    ensures ChompSlashes(a + "/") == ChompSlashes(a)
  {
    assert (a + "/")[..|a + "/"| - 1] == a;
  }

  /** What comes before `b` in `JoinPath(a, b)` is `a` up to its trailing
      slashes: all of them dropped when `b` brings its own slash, and one
      added when neither side has one. */
  lemma JoinPathHead(a: string, b: string)
    ensures var r := JoinPath(a, b); ChompSlashes(r[..|r| - |b|]) == ChompSlashes(a)
    ensures var r := JoinPath(a, b);
      r[..|r| - |b|] == if StartsWithSlash(b) then ChompSlashes(a) else if EndsWithSlash(a) then a else a + "/"
  {
    var r := JoinPath(a, b);
    if StartsWithSlash(b) {
      assert r == ChompSlashes(a) + b;
    } else if EndsWithSlash(a) {
      assert r == a + b;
    } else {
      assert r == a + "/" + b;
      ChompSlashesOfSlash(a);
    }
  }

  /** For non-empty slash-free parts, File.join puts exactly one slash
      between neighbours. */
  lemma {:induction false} FileJoinPlain(parts: seq<string>)
    requires forall i :: 0 <= i < |parts| ==> parts[i] != [] && NoSlash(parts[i])
    ensures FileJoin(parts) == Join(parts, "/")
  {
    if |parts| > 1 {
      var front, last := parts[..|parts| - 1], parts[|parts| - 1];
      assert parts == front + [last];
      FileJoinPlain(front);
      JoinSnoc(front, last, "/");
      var f, j := front[|front| - 1], Join(front, "/");
      JoinLast(front, "/");
      assert j[|j| - 1] == f[|f| - 1];
    }
  }

  /** For a plain directory and sub-directory pattern the searched pattern
      is path, subdir, any name and ".git" joined by slashes; by default
      subdir is itself "any name". */
  lemma GlobPatternShape(path: string, subdir: string)
    requires !EndsWithSlash(path)
    requires subdir != [] && !StartsWithSlash(subdir) && !EndsWithSlash(subdir)
    ensures GlobPattern(path, subdir) == path + "/" + subdir + "/*/.git"
  {
    var star, marker := "*", ".git";
    FileJoinFour(path, subdir, star, marker);
    var a := path + "/" + subdir;
    assert JoinPath(path, subdir) == a;
    assert !EndsWithSlash(a) by { assert a[|a| - 1] == subdir[|subdir| - 1]; }
    var y := a + "/" + star;
    assert JoinPath(a, star) == y;
    assert JoinPath(y, marker) == y + "/" + marker by { assert y[|y| - 1] == '*'; }
    WildcardMarker(a, star, marker);
  }

  /** By default the pattern is path, two wildcard levels and ".git". */
  lemma GlobPatternDefault(path: string)
    requires !EndsWithSlash(path)
    ensures GlobPattern(path) == path + "/*/*/.git"
  {
    GlobPatternShape(path, "*");
  }

  /** `s` without its last run of non-slash characters. */
  function DropLastSegment(s: string): (r: string)
    ensures |r| <= |s| && r == s[..|r|]
    ensures r == [] || EndsWithSlash(r)
    ensures NoSlash(s[|r|..])
  {
    if s == [] || EndsWithSlash(s) then s else DropLastSegment(s[..|s| - 1])
  }

  /** `s` starts with two or more slashes. */
  predicate DoubleRoot(s: string) { |s| >= 2 && s[0] == '/' && s[1] == '/' }

  /** A leading run of slashes reduced to one; the rest of `s` is kept. */
  function CollapseRoot(s: string): (r: string)
    ensures |r| <= |s| && r == s[|s| - |r|..] && !DoubleRoot(r)
    ensures forall k :: 0 <= k < |s| - |r| ==> s[k] == '/'
    ensures StartsWithSlash(s) ==> StartsWithSlash(r)
    ensures r != [] || s == []
  {
    if DoubleRoot(s) then CollapseRoot(s[1..]) else s
  }

  /** File.dirname: everything before the last segment, trailing slashes
      dropped and a leading run of slashes reduced to one; "." when there is
      no directory part and "/" for the root. */
  function Dirname(s: string): (r: string)
    ensures r == "." || r == "/" || (r != [] && |r| < |s| && !EndsWithSlash(r) && !DoubleRoot(r))
  {
    var t := ChompSlashes(s);
    if t == [] then (if s == [] then "." else "/")
    else
      var u := DropLastSegment(t);
      if u == [] then "."
      else
        var v := ChompSlashes(u);
        if v == [] then "/" else CollapseRoot(v)
  }

  lemma {:induction false} DropSegmentAfterSlash(a: string, b: string)
    requires NoSlash(b)
    ensures DropLastSegment(a + "/" + b) == a + "/"
    decreases |b|
  {
    if b == [] {
      assert a + "/" + b == a + "/";
    } else {
      var b' := b[..|b| - 1];
      assert (a + "/" + b)[..|a + "/" + b| - 1] == a + "/" + b';
      DropSegmentAfterSlash(a, b');
    }
  }

  /** The directory of `d/b` is `d` without its trailing slashes and with
      its leading slashes reduced to one, or "/" when `d` is only slashes. */
  lemma DirnameOfChild(d: string, b: string)
    requires b != [] && NoSlash(b)
    ensures Dirname(d + "/" + b) == if ChompSlashes(d) == [] then "/" else CollapseRoot(ChompSlashes(d))
  {
    var s := d + "/" + b;
    assert s[|s| - 1] == b[|b| - 1];
    assert ChompSlashes(s) == s;
    DropSegmentAfterSlash(d, b);
    ChompSlashesOfSlash(d);
  }

  /** A path made of slashes only is the root. */
  lemma DirnameOfSlashes(s: string)
    requires s != [] && forall k :: 0 <= k < |s| ==> s[k] == '/'
    ensures Dirname(s) == "/"
  {
  }

  /** A name with no directory part has directory ".". */
  lemma DirnameOfName(b: string)
    requires NoSlash(b)
    ensures Dirname(b) == "."
  {
    if b != [] {
      assert ChompSlashes(b) == b;
    }
  }

  /** A name directly under the root has directory "/". */
  lemma DirnameOfRootChild(b: string)
    requires b != [] && NoSlash(b)
    ensures Dirname("/" + b) == "/"
  {
    var s := "/" + b;
    assert s[|s| - 1] == b[|b| - 1];
    assert ChompSlashes(s) == s;
    DropSegmentAfterSlash("", b);
    assert "" + "/" + b == s;
  }

  /** Trailing slashes do not change the directory. */
  lemma DirnameTrailingSlash(s: string)
    requires s != []
    ensures Dirname(s + "/") == Dirname(s)
  {
    assert (s + "/")[..|s + "/"| - 1] == s;
  }

  /** The directory of a `.git` match is the match without "/.git". */
  lemma DirnameOfGitMarker(p: string)
    requires p != [] && !EndsWithSlash(p)
    ensures Dirname(p + "/.git") == CollapseRoot(p)
  {
    var marker := ".git";
    assert NoSlash(marker);
    assert p + "/.git" == p + "/" + marker;
    DirnameOfChild(p, marker);
  }

  // ---------------------------------------------------------------------------
  // The name pattern [^\/]+\/[^\/]+\z
  // ---------------------------------------------------------------------------

  /** `t` as a whole matches `[^/]+/[^/]+`: two non-empty slash-free parts
      around one slash. */
  predicate IsOwnerRepo(t: string)
  {
    exists m :: 0 < m < |t| - 1 && t[m] == '/' && NoSlash(t[..m]) && NoSlash(t[m + 1..])
  }

  /** The leftmost position at or after `i` where the anchored pattern
      matches the rest of `dir`, as a regular-expression search finds it. */
  function MatchFrom(dir: string, i: nat): (r: Option<nat>)
    requires i <= |dir|
    ensures r.Some? ==> i <= r.value < |dir| && IsOwnerRepo(dir[r.value..])
    ensures r.Some? ==> forall k :: i <= k < r.value ==> !IsOwnerRepo(dir[k..])
    ensures r.None? ==> forall k :: i <= k <= |dir| ==> !IsOwnerRepo(dir[k..])
    decreases |dir| - i
  {
    if i == |dir| then
      assert !IsOwnerRepo(dir[i..]);
      None
    else if IsOwnerRepo(dir[i..]) then Some(i)
    else MatchFrom(dir, i + 1)
  }

  /** `path_to_git_repo[%r{[^\/]+\/[^\/]+\z}]`: the leftmost suffix of the
      directory of the form owner/repo, or nil when there is none. */
  function RepoName(dir: string): (r: Option<string>)
    ensures r.Some? ==> IsOwnerRepo(r.value) && |r.value| <= |dir| && r.value == dir[|dir| - |r.value|..]
    ensures r.Some? ==> forall i :: 0 <= i < |dir| - |r.value| ==> !IsOwnerRepo(dir[i..])
    ensures r.None? ==> forall i :: 0 <= i <= |dir| ==> !IsOwnerRepo(dir[i..])
  {
    match MatchFrom(dir, 0)
    case None => None
    case Some(i) => Some(dir[i..])
  }

  // ---------------------------------------------------------------------------
  // Path segments
  // ---------------------------------------------------------------------------

  function LastSlash(s: string): (j: nat)
    requires !NoSlash(s)
    ensures j < |s| && s[j] == '/' && NoSlash(s[j + 1..])
  {
    if s[|s| - 1] == '/' then |s| - 1
    else
      assert !NoSlash(s[..|s| - 1]) by {
        var k :| 0 <= k < |s| && s[k] == '/';
        assert s[..|s| - 1][k] == '/';
      }
      var j := LastSlash(s[..|s| - 1]);
      assert s[j + 1..] == s[..|s| - 1][j + 1..] + [s[|s| - 1]];
      j
  }

  /** The `/`-separated segments of a path, empty ones included. */
  function Segments(s: string): (r: seq<string>)
    ensures |r| > 0
    ensures forall i :: 0 <= i < |r| ==> NoSlash(r[i])
  {
    if NoSlash(s) then [s]
    else
      var j := LastSlash(s);
      Segments(s[..j]) + [s[j + 1..]]
  }

  /** Splitting at every slash and joining with slashes gives the path
      back. */
  lemma {:induction false} SegmentsJoin(s: string)
    ensures Join(Segments(s), "/") == s
    decreases |s|
  {
    if !NoSlash(s) {
      var j := LastSlash(s);
      var front, last := Segments(s[..j]), s[j + 1..];
      assert Join(Segments(s), "/") == s[..j] + "/" + last by {
        assert Segments(s) == front + [last];
        SegmentsJoin(s[..j]);
        JoinSnoc(front, last, "/");
      }
      assert s == s[..j] + "/" + last;
    }
  }

  /** The last two segments joined by one slash, when both are non-empty. */
  function LastTwoSegments(segments: seq<string>): Option<string>
  {
    var n := |segments|;
    if n >= 2 && segments[n - 2] != [] && segments[n - 1] != [] then
      Some(segments[n - 2] + "/" + segments[n - 1])
    else None
  }

  lemma NotOwnerRepoWithTwoSlashes(t: string, p: nat, q: nat)
    requires p < q < |t| && t[p] == '/' && t[q] == '/'
    ensures !IsOwnerRepo(t)
  {
    forall m | 0 < m < |t| - 1 && t[m] == '/' ensures !(NoSlash(t[..m]) && NoSlash(t[m + 1..])) {
      if p < m { assert t[..m][p] == '/'; }
      else if p > m { assert t[m + 1..][p - m - 1] == '/'; }
      else { assert t[m + 1..][q - m - 1] == '/'; }
    }
  }

  lemma NotOwnerRepoAtSlash(t: string)
    requires StartsWithSlash(t) || EndsWithSlash(t) || NoSlash(t)
    ensures !IsOwnerRepo(t)
  {
    forall m | 0 < m < |t| - 1 && t[m] == '/' ensures !(NoSlash(t[..m]) && NoSlash(t[m + 1..])) {
      if StartsWithSlash(t) { assert t[..m][0] == '/'; }
      else if EndsWithSlash(t) { assert t[m + 1..][|t| - m - 2] == '/'; }
    }
  }

  lemma OwnerRepoOf(a: string, b: string)
    requires a != [] && b != [] && NoSlash(a) && NoSlash(b)
    ensures IsOwnerRepo(a + "/" + b)
  {
    var t := a + "/" + b;
    assert t[..|a|] == a && t[|a| + 1..] == b;
  }

  /** Pins RepoName down once the leftmost matching position is known. */
  lemma RepoNameAt(dir: string, i: nat)
    requires i <= |dir| && IsOwnerRepo(dir[i..])
    requires forall k :: 0 <= k < i ==> !IsOwnerRepo(dir[k..])
    ensures RepoName(dir) == Some(dir[i..])
  {
    var r := RepoName(dir);
    assert r.Some?;
    var start := |dir| - |r.value|;
    assert dir[start..] == r.value;
  }

  lemma NoOwnerRepoWhenNoSlash(dir: string)
    requires NoSlash(dir)
    ensures RepoName(dir) == None
  {
    forall i | 0 <= i <= |dir| ensures !IsOwnerRepo(dir[i..]) {
      assert forall k :: 0 <= k < |dir[i..]| ==> dir[i..][k] == dir[i + k];
      NotOwnerRepoAtSlash(dir[i..]);
    }
  }

  lemma NoOwnerRepoWhenTrailingSlash(dir: string)
    requires EndsWithSlash(dir)
    ensures RepoName(dir) == None
  {
    forall i | 0 <= i <= |dir| ensures !IsOwnerRepo(dir[i..]) {
      if i < |dir| {
        assert dir[i..][|dir| - i - 1] == '/';
        NotOwnerRepoAtSlash(dir[i..]);
      } else {
        NotOwnerRepoAtSlash(dir[i..]);
      }
    }
  }

  /** `dir` is `head/last` with a slash-free `last`. */
  lemma TwoSegmentsOnly(dir: string, j: nat)
    requires j < |dir| - 1 && dir[j] == '/' && NoSlash(dir[..j]) && NoSlash(dir[j + 1..])
    ensures RepoName(dir) == LastTwoSegments([dir[..j], dir[j + 1..]])
  {
    var head, last := dir[..j], dir[j + 1..];
    if head == [] {
      forall i | 0 <= i <= |dir| ensures !IsOwnerRepo(dir[i..]) {
        if i == 0 {
          assert dir[0..][0] == '/';
        } else {
          assert forall k :: 0 <= k < |dir[i..]| ==> dir[i..][k] == last[k + i - 1];
        }
        NotOwnerRepoAtSlash(dir[i..]);
      }
    } else {
      assert dir == head + "/" + last;
      OwnerRepoOf(head, last);
      RepoNameAt(dir, 0);
    }
  }

  /** No suffix starting at or before the second-last slash matches. */
  lemma NoMatchBeforePenult(dir: string, j2: nat, j: nat)
    requires j2 < j < |dir| && dir[j2] == '/' && dir[j] == '/'
    ensures forall i :: 0 <= i <= j2 ==> !IsOwnerRepo(dir[i..])
  {
    forall i | 0 <= i <= j2 ensures !IsOwnerRepo(dir[i..]) {
      assert dir[i..][j2 - i] == '/' && dir[i..][j - i] == '/';
      NotOwnerRepoWithTwoSlashes(dir[i..], j2 - i, j - i);
    }
  }

  /** With an empty second-last segment, no suffix after it matches either. */
  lemma NoMatchAfterEmptyPenult(dir: string, j: nat)
    requires 0 < j < |dir| - 1 && dir[j - 1] == '/' && dir[j] == '/' && NoSlash(dir[j + 1..])
    ensures forall i :: j <= i <= |dir| ==> !IsOwnerRepo(dir[i..])
  {
    var last := dir[j + 1..];
    forall i | j <= i <= |dir| ensures !IsOwnerRepo(dir[i..]) {
      if i == j {
        assert dir[i..][0] == '/';
      } else {
        assert forall k :: 0 <= k < |dir[i..]| ==> dir[i..][k] == last[k + i - j - 1];
      }
      NotOwnerRepoAtSlash(dir[i..]);
    }
  }

  /** `dir` is `before/penult/last` with slash-free `penult` and `last`. */
  lemma ThreeOrMoreSegments(dir: string, j2: nat, j: nat)
    requires j2 < j < |dir| - 1 && dir[j2] == '/' && dir[j] == '/'
    requires NoSlash(dir[j2 + 1..j]) && NoSlash(dir[j + 1..])
    ensures RepoName(dir) == LastTwoSegments([dir[j2 + 1..j], dir[j + 1..]])
  {
    var penult, last := dir[j2 + 1..j], dir[j + 1..];
    NoMatchBeforePenult(dir, j2, j);
    if penult == [] {
      NoMatchAfterEmptyPenult(dir, j);
    } else {
      MatchAtPenult(dir, j2, j);
    }
  }

  /** With a non-empty second-last segment the match starts there. */
  lemma MatchAtPenult(dir: string, j2: nat, j: nat)
    requires j2 + 1 < j < |dir| - 1 && dir[j2] == '/' && dir[j] == '/'
    requires NoSlash(dir[j2 + 1..j]) && NoSlash(dir[j + 1..])
    requires forall i :: 0 <= i <= j2 ==> !IsOwnerRepo(dir[i..])
    ensures RepoName(dir) == Some(dir[j2 + 1..j] + "/" + dir[j + 1..])
  {
    var penult, last := dir[j2 + 1..j], dir[j + 1..];
    assert dir[j2 + 1..] == penult + "/" + last;
    OwnerRepoOf(penult, last);
    RepoNameAt(dir, j2 + 1);
  }

  /** Only the last two segments matter. */
  lemma LastTwoOfLonger(front: seq<string>, penult: string, last: string)
    ensures LastTwoSegments(front + [penult, last]) == LastTwoSegments([penult, last])
  {
    var all := front + [penult, last];
    assert all[|all| - 2] == penult && all[|all| - 1] == last;
  }

  lemma SegmentsStep(s: string)
    requires !NoSlash(s)
    ensures Segments(s) == Segments(s[..LastSlash(s)]) + [s[LastSlash(s) + 1..]]
  {
  }

  /** `dir` ends in a non-empty segment after at least two slashes. */
  lemma DeepRepoName(dir: string, j: nat)
    requires !NoSlash(dir) && j == LastSlash(dir) && dir[j + 1..] != [] && !NoSlash(dir[..j])
    ensures RepoName(dir) == LastTwoSegments(Segments(dir))
  {
    var head, last := dir[..j], dir[j + 1..];
    var j2 := LastSlash(head);
    var penult := head[j2 + 1..];
    SegmentsStep(dir);
    SegmentsStep(head);
    var front := Segments(head[..j2]);
    assert Segments(dir) == front + [penult, last];
    LastTwoOfLonger(front, penult, last);
    assert penult == dir[j2 + 1..j];
    ThreeOrMoreSegments(dir, j2, j);
  }

  /** A leading slash never starts the match. */
  lemma RepoNameAfterLeadingSlash(dir: string)
    requires StartsWithSlash(dir)
    ensures RepoName(dir) == RepoName(dir[1..])
  {
    var rest := dir[1..];
    NotOwnerRepoAtSlash(dir);
    assert dir[0..] == dir;
    match RepoName(rest)
    case None =>
      forall i | 0 <= i <= |dir| ensures !IsOwnerRepo(dir[i..]) {
        if i > 0 { assert dir[i..] == rest[i - 1..]; }
      }
    case Some(x) =>
      var start := |rest| - |x|;
      assert dir[start + 1..] == rest[start..];
      forall k | 0 <= k < start + 1 ensures !IsOwnerRepo(dir[k..]) {
        if k > 0 { assert dir[k..] == rest[k - 1..]; }
      }
      RepoNameAt(dir, start + 1);
  }

  /** Reducing the leading slashes does not change the name. */
  lemma {:induction false} RepoNameOfCollapsedRoot(dir: string)
    ensures RepoName(CollapseRoot(dir)) == RepoName(dir)
    decreases |dir|
  {
    if DoubleRoot(dir) {
      RepoNameAfterLeadingSlash(dir);
      RepoNameOfCollapsedRoot(dir[1..]);
    }
  }

  /** The regular expression picks out exactly the last two segments of the
      directory, joined by a slash, and finds nothing when either of them is
      empty or there is only one segment. */
  lemma RepoNameIsLastTwoSegments(dir: string)
    ensures RepoName(dir) == LastTwoSegments(Segments(dir))
  {
    if NoSlash(dir) {
      NoOwnerRepoWhenNoSlash(dir);
    } else {
      var j := LastSlash(dir);
      var head, last := dir[..j], dir[j + 1..];
      if last == [] {
        assert Segments(dir) == Segments(head) + [last];
        NoOwnerRepoWhenTrailingSlash(dir);
      } else if NoSlash(head) {
        assert Segments(dir) == [head, last];
        TwoSegmentsOnly(dir, j);
      } else {
        DeepRepoName(dir, j);
      }
    }
  }

  // ---------------------------------------------------------------------------
  // git_repos
  // ---------------------------------------------------------------------------

  /** A local repository name; answers `full_name` with itself, as a remote
      repository record answers it with its owner-qualified name. */
  datatype LocalName = LocalName(name: string)
  {
    function FullName(): (r: string)
      ensures r == name
    {
      name
    }
  }

  /** The name derived from one `.git` match, or nil when the directory has
      no owner/repo suffix. */
  function NameOfMatch(pathToGitDir: string): (r: Option<LocalName>)
    ensures r.Some? ==> IsOwnerRepo(r.value.FullName()) && IsSuffix(r.value.name, Dirname(pathToGitDir))
  {
    match RepoName(Dirname(pathToGitDir))
    case None => None
    case Some(n) => Some(LocalName(n))
  }

  /** `git_repos(subdir = '*')` for a directory at `path`, given what
      Dir.glob returns for each pattern. */
  function GitRepos(path: string, glob: string -> seq<string>, subdir: string := "*"): (r: seq<Option<LocalName>>)
    ensures |r| == |glob(GlobPattern(path, subdir))|
    ensures forall i :: 0 <= i < |r| ==> r[i] == NameOfMatch(glob(GlobPattern(path, subdir))[i])
  {
    var matches := glob(GlobPattern(path, subdir));
    seq(|matches|, i requires 0 <= i < |matches| => NameOfMatch(matches[i]))
  }

  /** A path of the form `<dir>/.git` with a directory not ending in a slash. */
  predicate IsGitMarker(m: string)
  {
    |m| > 5 && m[|m| - 5..] == "/.git" && m[|m| - 6] != '/'
  }

  /** Each name is the last two segments of the clone's directory, which is
      its `.git` match without "/.git". */
  lemma GitReposNames(path: string, glob: string -> seq<string>, subdir: string)
    ensures var matches := glob(GlobPattern(path, subdir));
      forall i :: 0 <= i < |matches| && IsGitMarker(matches[i]) ==>
        var dir := matches[i][..|matches[i]| - 5];
        GitRepos(path, glob, subdir)[i] ==
          match LastTwoSegments(Segments(dir)) case None => None case Some(n) => Some(LocalName(n))
  {
    var matches := glob(GlobPattern(path, subdir));
    forall i | 0 <= i < |matches| && IsGitMarker(matches[i])
      ensures var dir := matches[i][..|matches[i]| - 5];
        NameOfMatch(matches[i]) ==
          match LastTwoSegments(Segments(dir)) case None => None case Some(n) => Some(LocalName(n))
    {
      var m := matches[i];
      var dir := m[..|m| - 5];
      assert m == dir + "/.git";
      DirnameOfGitMarker(dir);
      RepoNameOfCollapsedRoot(dir);
      RepoNameIsLastTwoSegments(dir);
    }
  }

  /** A clone checked out at `root/owner/repo` is named `owner/repo`,
      whatever `root` is. */
  lemma NameOfClone(root: string, owner: string, repo: string)
    requires owner != [] && repo != [] && NoSlash(owner) && NoSlash(repo)
    ensures NameOfMatch(root + "/" + owner + "/" + repo + "/.git") == Some(LocalName(owner + "/" + repo))
  {
    var dir := root + "/" + owner + "/" + repo;
    assert dir[|dir| - 1] == repo[|repo| - 1];
    DirnameOfGitMarker(dir);
    RepoNameOfCollapsedRoot(dir);
    RepoNameOfClone(root, owner, repo);
  }

  /** The directory `root/owner/repo` has the name `owner/repo`. */
  lemma RepoNameOfClone(root: string, owner: string, repo: string)
    requires owner != [] && repo != [] && NoSlash(owner) && NoSlash(repo)
    ensures RepoName(root + "/" + owner + "/" + repo) == Some(owner + "/" + repo)
  {
    var dir := root + "/" + owner + "/" + repo;
    var j2, j := |root|, |root| + 1 + |owner|;
    assert dir[j2 + 1..j] == owner && dir[j + 1..] == repo;
    ThreeOrMoreSegments(dir, j2, j);
  }

  /** Scanning a root holding the clones `owner/first` and `owner/second`
      (for instance `orgA/repo1` and `orgA/repo2`) names both, in the order
      Dir.glob lists them. */
  lemma ScanTwoClones(root: string, owner: string, first: string, second: string, glob: string -> seq<string>)
    requires owner != [] && first != [] && second != []
    requires NoSlash(owner) && NoSlash(first) && NoSlash(second)
    requires glob(GlobPattern(root)) ==
      [root + "/" + owner + "/" + first + "/.git", root + "/" + owner + "/" + second + "/.git"]
    ensures GitRepos(root, glob) == [Some(LocalName(owner + "/" + first)), Some(LocalName(owner + "/" + second))]
  {
    var matches := glob(GlobPattern(root));
    var names := GitRepos(root, glob);
    NameOfClone(root, owner, first);
    NameOfClone(root, owner, second);
    assert names[0] == NameOfMatch(matches[0]);
    assert names[1] == NameOfMatch(matches[1]);
  }
}
