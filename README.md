# git-multi core, modelled in Dafny

git-multi runs git commands across all of a GitHub user's repositories and
all of their organizations' repositories. This project models three pieces of
its core and proves properties about them.

- **`Git::Hub`** (`hub.dfy`, module `Hub`) is the session with GitHub:
  - three remembered facts: `connected?`, `login` and `orgs`;
  - two memo tables of repository listings keyed by (account, type), filled
    on first use and sorted by lower-cased name;
  - `query_args`, the three-column layout of a repository's field names.

  The Octokit client is an oracle: a value of total functions indexed by the
  number of requests made so far. A successful answer and each error class
  (Unauthorized, ConnectionFailed, any other) can all be expressed. The class
  `Hub.Hub` holds the memo fields, a request counter and the log of `notify`
  messages.
- **`Dir#git_repos`** (`dir.dfy`, module `DirExt`) names the local clones
  found under a directory:
  - `File.join` follows Ruby's rule for slashes at a joint;
  - `File.dirname` follows Ruby's POSIX behaviour, including reducing a
    leading run of slashes to one;
  - the regular expression `[^/]+/[^/]+\z` is a leftmost-match search.

  `Dir.glob` is an input function from pattern to matches. `LocalName`
  answers `full_name` with itself.
- **`Nike#just_do_it`** (`nike.dfy`, module `Nike`) runs one of two handlers
  for a repository inside a chosen working directory. Class `Nike.Process`
  holds the working directory and a trace of lines printed and handlers
  called. It knows which directories exist, so `Dir.chdir` can fail.
- **Ruby library behaviour** the core depends on (`ruby_core.dfy`, module
  `RubyCore`):
  - `String#<=>`;
  - ASCII `downcase`;
  - `sort_by` and `sort`;
  - `each_slice(3)`;
  - `%-20s` padding;
  - `rstrip`;
  - `join`.

Three behaviours of the code are easy to misread; the model follows the code:

- `connected?` and `login` use `||=`, so a `false` or `nil` answer is not
  remembered and the next call asks GitHub again. Only truthy answers are
  computed once. An `orgs` answer of `[]` is truthy in Ruby and is
  remembered.
- `orgs` is the logins in the order the client lists them, not a set.
- `git_repos` returns one entry per glob match, in glob order. An entry is
  nil (`None`) when the directory has no `owner/repo` suffix.

## Model

| member | source | states |
|---|---|---|
| RubyCore.LexReflexive | lib/git/hub.rb:69 | String comparison is reflexive |
| RubyCore.LexTotal | lib/git/hub.rb:69 | any two strings are comparable |
| RubyCore.LexTransitive | lib/git/hub.rb:69 | string comparison is transitive |
| RubyCore.LexAntisymmetric | lib/git/hub.rb:69 | two strings each at most the other are equal |
| RubyCore.Downcase | lib/git/hub.rb:83 | same length; no upper-case letter remains; upper-case ASCII letters map to their lower-case forms; every other character is kept |
| RubyCore.PrependSorted | lib/git/hub.rb:83 | an element whose key is at most every key of a sorted sequence can go in front and keep it sorted |
| RubyCore.BelowHead | lib/git/hub.rb:83 | an element no greater than the head of a sorted sequence is no greater than any element |
| RubyCore.HeadBelowInserted | lib/git/hub.rb:83 | the head of a sorted sequence is no greater than its tail plus a larger element |
| RubyCore.Insert | lib/git/hub.rb:83 | inserting into a sorted sequence keeps it sorted and adds exactly that element |
| RubyCore.SortBy | lib/git/hub.rb:83 | `sort_by`: the result is a permutation of the input, sorted by the key |
| RubyCore.Sort | lib/git/hub.rb:69 | `sort`: a sorted permutation of the names |
| RubyCore.HeadIsLeast | lib/git/hub.rb:69 | the first element of a sorted sequence is at most every element |
| RubyCore.SortedTail | lib/git/hub.rb:69 | the tail of a sorted sequence is sorted |
| RubyCore.TailMultiset | lib/git/hub.rb:69 | sequences with the same elements and the same head have tails with the same elements |
| RubyCore.SortedUnique | lib/git/hub.rb:69 | two sorted sequences with the same elements are equal |
| RubyCore.SortOrderIndependent | lib/git/hub.rb:69 | `sort` depends only on which names there are, not on their order |
| RubyCore.EachSlice3 | lib/git/hub.rb:69 | `each_slice(3)`: ceil(n/3) slices of 1 to 3 elements, all full except maybe the last, which concatenate back to the input |
| RubyCore.LeftJustify | lib/git/hub.rb:70 | `%-20s`: the name followed by blanks up to the width; a longer name is kept whole |
| RubyCore.Rstrip | lib/git/hub.rb:70 | `rstrip`: a prefix of the input, not ending in whitespace or NUL, with only such characters removed |
| RubyCore.RstripDropsBlanks | lib/git/hub.rb:70 | appending whitespace does not change what `rstrip` returns |
| RubyCore.Join | lib/git/hub.rb:71 | `join`: as long as the parts together plus one separator per joint, and starting with the first part; JoinSnoc, JoinLast and JoinCount state the rest |
| RubyCore.JoinSnoc | lib/git/hub.rb:71 | for a non-empty list of parts, joining one more part adds one separator and then that part at the end |
| RubyCore.JoinLast | lib/git/hub.rb:71 | a join of a non-empty list of parts ends with its last part |
| RubyCore.JoinCount | lib/git/hub.rb:71 | a character occurring once in the separator occurs in `join` as often as in the parts plus once per separator |
| Hub.SortByName | lib/git/hub.rb:83 | a listing is stored as a permutation of what the client returned, sorted by lower-cased name |
| Hub.Logins | lib/git/hub.rb:56 | `map(&:login)`: one login per organization, in the client's order |
| Hub.RefreshNoticeInjective | lib/git/hub.rb:80 | the refresh notice determines the listing type and the account it announces: two requests that differ in either are announced differently; the organization listing at line 98 sends the same notice |
| Hub.Hub.constructor | lib/git/hub.rb:78 | a new session has no remembered facts, empty tables, no requests and no notices |
| Hub.Hub.Connected | lib/git/hub.rb:33-40 | once true, stays true with no request; otherwise one validation request. Success gives true and is remembered; ConnectionFailed gives false, not remembered; any other error propagates; nothing else changes |
| Hub.Hub.Login | lib/git/hub.rb:44-50 | a known login is returned with no request; otherwise one user request. Success is remembered; Unauthorized or ConnectionFailed give nil, not remembered; any other error propagates |
| Hub.Hub.Orgs | lib/git/hub.rb:54-60 | a remembered list is returned with no request; otherwise one request. The answer is the logins in client order, or [] on Unauthorized or ConnectionFailed, and either is remembered; any other error propagates with nothing remembered |
| Hub.Hub.UserRepositories | lib/git/hub.rb:78-90 | hit: the stored listing, with no request and no notice. Miss: one notice and one request. A successful fetch is stored under the key as a sorted permutation of the client's answer; an error propagates and nothing is stored. The organization table and the facts are untouched, and every stored listing stays sorted |
| Hub.Hub.OrgRepositories | lib/git/hub.rb:96-108 | the same memoization over the organization table and endpoint, leaving the user table untouched |
| Hub.LookupTwice | lib/git/hub.rb:87-90 | when the first of two lookups of one key succeeds, the two make at most one request and return the same listing; a stored key costs no request |
| Hub.AcmeListing | lib/git/hub.rb:82-83 | a listing returned as `b`, `A` is stored as `A`, `b` |
| Hub.QueryArgs | lib/git/hub.rb:68-72 | no field names give the empty string; up to three names give a single row with no separator; QueryArgsLineCount, QueryArgsOrderIndependent and RowLayout state the rest |
| Hub.FormatRow | lib/git/hub.rb:70 | a row never ends in a character `rstrip` removes, and names that fit their 20-character columns give a row of at most 62 characters; RowLayout places each name |
| Hub.QueryRows | lib/git/hub.rb:69-70 | ceil(n/3) rows for n field names |
| Hub.QueryArgsOrderIndependent | lib/git/hub.rb:68-72 | the output is the same for any order the client lists the fields in |
| Hub.LeftJustifyChars | lib/git/hub.rb:70 | padding adds no character other than a blank |
| Hub.RowHasNoNewline | lib/git/hub.rb:70 | a row holds no newline when none of its names does |
| RubyCore.FlattenMember | lib/git/hub.rb:69 | an element of a slice is an element of the sliced sequence |
| Hub.NoCountIn | lib/git/hub.rb:71 | rows without a character contribute none of it to the output |
| Hub.QueryArgsLineCount | lib/git/hub.rb:68-72 | for newline-free names the output has ceil(n/3) lines: one newline per separator, none for no fields |
| Hub.StripPadding | lib/git/hub.rb:70 | `rstrip` removes the padding after a name that ends visibly |
| Hub.PaddedSplit | lib/git/hub.rb:70 | a padded name starts with the name |
| Hub.RowText1 | lib/git/hub.rb:70 | a one-name row is the name itself, when the last name is non-empty and does not end in a blank, NUL or another character `rstrip` removes |
| Hub.RowText2 | lib/git/hub.rb:70 | a two-name row is the padded first name, a blank, and the second name, when the last name is non-empty and does not end in a blank, NUL or another character `rstrip` removes |
| Hub.RowText3 | lib/git/hub.rb:70 | a three-name row is two padded names, each followed by a blank, and the third name, when the last name is non-empty and does not end in a blank, NUL or another character `rstrip` removes |
| Hub.Columns2 | lib/git/hub.rb:70 | names start at columns 0 and 21, and the row ends with the second name, when the last name is non-empty and does not end in a blank, NUL or another character `rstrip` removes, and when the earlier names fit 20 columns |
| Hub.Columns3 | lib/git/hub.rb:70 | names start at columns 0, 21 and 42, and the row ends with the third name, when the last name is non-empty and does not end in a blank, NUL or another character `rstrip` removes, and when the earlier names fit 20 columns |
| Hub.RowLayout | lib/git/hub.rb:70 | every row puts its k-th name at column 21k and ends with its last name, when the earlier names fit 20 columns and the last name is non-empty and does not end in a blank, NUL or another character `rstrip` removes |
| DirExt.ChompSlashes | lib/ext/dir.rb:3 | the longest prefix not ending in a slash; only slashes are removed |
| DirExt.JoinPath | lib/ext/dir.rb:3 | one joint of `File.join`: the right part ends the result, and a slash separates the two, either the right part's own or one at the end of the left part |
| DirExt.JoinPathHead | lib/ext/dir.rb:3 | before the right part stands the left part up to its trailing slashes: all of them dropped when the right part starts with a slash, the left part kept whole when it ends in one, one slash added otherwise |
| DirExt.FileJoin | lib/ext/dir.rb:3 | `File.join` ends with its last part |
| DirExt.FileJoinFour | lib/ext/dir.rb:3 | `File.join` of four parts is three joints, taken left to right |
| DirExt.FileJoinPlain | lib/ext/dir.rb:3 | non-empty slash-free parts are joined with exactly one slash between neighbours, as `join("/")` would |
| DirExt.GlobPattern | lib/ext/dir.rb:3 | the pattern ends in `.git` |
| DirExt.GlobPatternSuffix | lib/ext/dir.rb:3 | for every path and sub-directory pattern, the pattern ends in a slash, a wildcard segment and `/.git` |
| DirExt.GlobPatternShape | lib/ext/dir.rb:3 | for a path that does not end in a slash and a non-empty subdir that neither starts nor ends with one, the pattern is path, subdir, `*` and `.git` joined by single slashes |
| DirExt.GlobPatternDefault | lib/ext/dir.rb:2-3 | by default, for a path that does not end in a slash, the pattern is `path/*/*/.git` |
| DirExt.DropLastSegment | lib/ext/dir.rb:4 | a prefix that is empty or ends in a slash, followed in the input by slash-free text |
| DirExt.Dirname | lib/ext/dir.rb:4 | `.`, `/`, or a non-empty path shorter than the input, with no trailing slash and no doubled leading slash. Which one is fixed for every input by four lemmas: DirnameOfName (no slash), DirnameOfSlashes (only slashes), DirnameTrailingSlash (trailing slashes ignored) and DirnameOfChild (any `d/b` with `b` a non-empty segment) |
| DirExt.DropSegmentAfterSlash | lib/ext/dir.rb:4 | dropping the last segment of `a/b` leaves `a/` |
| DirExt.CollapseRoot | lib/ext/dir.rb:4 | a suffix of the input that drops only leading slashes and keeps one when the input starts with a slash |
| DirExt.DirnameOfChild | lib/ext/dir.rb:4 | for any `d` and a non-empty slash-free `b`, the directory of `d/b` is `d` without its trailing slashes and with its leading slashes reduced to one, or `/` when `d` has nothing but slashes (`a//b` gives `a`, `//b` gives `/`, `//a//b` gives `/a`) |
| DirExt.DirnameOfSlashes | lib/ext/dir.rb:4 | a non-empty path of slashes only, such as `/` or `///`, has directory `/` |
| DirExt.DirnameOfName | lib/ext/dir.rb:4 | a path with no slash has directory `.` |
| DirExt.DirnameOfRootChild | lib/ext/dir.rb:4 | a name directly under the root has directory `/` |
| DirExt.DirnameTrailingSlash | lib/ext/dir.rb:4 | a trailing slash after a non-empty path does not change the directory |
| DirExt.DirnameOfGitMarker | lib/ext/dir.rb:4 | for a non-empty `p` that does not end in a slash, the directory of `p/.git` is `p`, with its leading slashes reduced to one |
| DirExt.MatchFrom | lib/ext/dir.rb:5 | the leftmost position from which the rest of the path is `owner/repo`, or none if no position matches |
| DirExt.RepoName | lib/ext/dir.rb:5 | the regex result is a suffix of the form `owner/repo` with no earlier matching suffix; nil exactly when no suffix matches |
| DirExt.LastSlash | lib/ext/dir.rb:5 | the position of the last slash |
| DirExt.Segments | lib/ext/dir.rb:5 | splitting a path at every slash yields at least one segment, each slash-free, empty ones kept |
| DirExt.SegmentsJoin | lib/ext/dir.rb:5 | joining the segments with slashes gives the path back |
| DirExt.NotOwnerRepoWithTwoSlashes | lib/ext/dir.rb:5 | text with two slashes does not match `owner/repo` |
| DirExt.NotOwnerRepoAtSlash | lib/ext/dir.rb:5 | text that starts or ends with a slash, or has none, does not match |
| DirExt.NoMatchBeforePenult | lib/ext/dir.rb:5 | no suffix starting at or before the second-last slash matches |
| DirExt.NoMatchAfterEmptyPenult | lib/ext/dir.rb:5 | with an empty second-last segment, no later suffix matches |
| DirExt.MatchAtPenult | lib/ext/dir.rb:5 | with a non-empty second-last segment and a non-empty last segment, and no match starting at or before the second-last slash (NoMatchBeforePenult), the match is the last two segments |
| DirExt.OwnerRepoOf | lib/ext/dir.rb:5 | two non-empty slash-free names around a slash match |
| DirExt.RepoNameAt | lib/ext/dir.rb:5 | the regex returns the suffix at the leftmost matching position |
| DirExt.NoOwnerRepoWhenNoSlash | lib/ext/dir.rb:5 | a path with no slash gives nil |
| DirExt.NoOwnerRepoWhenTrailingSlash | lib/ext/dir.rb:5 | a path ending in a slash gives nil |
| DirExt.TwoSegmentsOnly | lib/ext/dir.rb:5 | a path of two segments with a non-empty last one gives both segments, or nil if the first is empty |
| DirExt.ThreeOrMoreSegments | lib/ext/dir.rb:5 | a longer path with a non-empty last segment gives its last two segments, or nil if the second-last is empty |
| DirExt.LastTwoOfLonger | lib/ext/dir.rb:5 | only the last two segments of a path decide the name |
| DirExt.DeepRepoName | lib/ext/dir.rb:5 | a path of three or more segments ending in a non-empty one gives its last two segments, or nil when the second-last is empty |
| DirExt.RepoNameIsLastTwoSegments | lib/ext/dir.rb:5 | the regex result is exactly the last two path segments joined by a slash, nil when either is empty or there is only one |
| DirExt.RepoNameAfterLeadingSlash | lib/ext/dir.rb:5 | a leading slash never starts the match, so dropping it keeps the name |
| DirExt.RepoNameOfCollapsedRoot | lib/ext/dir.rb:4-5 | reducing the leading slashes of the directory does not change the name found in it |
| DirExt.LocalName.FullName | lib/ext/dir.rb:6 | `full_name` answers the name itself |
| DirExt.NameOfMatch | lib/ext/dir.rb:4-7 | a name found for a `.git` match has the form `owner/repo`, is a suffix of the clone's directory, and is its own `full_name` |
| DirExt.GitRepos | lib/ext/dir.rb:2-8 | one entry per glob match of the pattern, in glob order, each the name of that match |
| DirExt.GitReposNames | lib/ext/dir.rb:3-7 | each entry for a `dir/.git` match, for a non-empty `dir` that does not end in a slash (as every match of the `/*/.git` pattern is), is the last two segments of `dir`, or nil when one of them is empty |
| DirExt.RepoNameOfClone | lib/ext/dir.rb:5 | the regex applied to `root/owner/repo` yields `owner/repo` for any root, empty or not |
| DirExt.NameOfClone | lib/ext/dir.rb:4-7 | a clone at `root/owner/repo` is named `owner/repo`, whatever the root |
| DirExt.ScanTwoClones | lib/ext/dir.rb:2-8 | scanning a root with clones `orgA/repo1` and `orgA/repo2` yields both names |
| Nike.WorkingDir | lib/git/meta/nike.rb:4-8 | `:local_path` gives the clone's path, `:parent_dir` its parent directory, anything else the current directory; JustDoIt changes into it |
| Nike.IdentificationLine | lib/git/meta/nike.rb:11-14 | the inverted name, a blank, and the fractional index in parentheses; both parts can be read back at fixed positions |
| Nike.Process.constructor | lib/git/meta/nike.rb:7 | a process starts in an existing directory with an empty trace |
| Nike.Process.Chdir | lib/git/meta/nike.rb:9 | an existing directory becomes the working directory; a missing one raises and changes nothing; the working directory always exists |
| Nike.Process.JustDoIt | lib/git/meta/nike.rb:3-20 | the target comes from `in_dir`; with it unset the target is the current directory, which can always be entered. A missing target raises and nothing runs. Otherwise exactly one handler call is added, the mode's, in the target; a line is printed first only in interactive mode, and the pipeline handler runs with nothing printed. The handler's outcome, failure included, is the result. The working directory is always restored |
| Nike.CallsAppend | lib/git/meta/nike.rb:10-18 | handler calls and printed lines in a trace add up over its parts |

## Left out

- The Faraday adapter swap and the optional `net/http/persistent` gem (lib/git/hub.rb:1-15) are left out. They are transport configuration.
- The memoized construction of the Octokit client and its token (lib/git/hub.rb:22-31) is left out. The client is a value given to the session.
- `repository_fields` (lib/git/hub.rb:64-66) is a network call. Its answer, the list of field names, is the input of `QueryRows`/`QueryArgs`.
- `notify` is only recorded as a message in the session's notice log. Where it goes is not modelled.
- `Dir.glob` is an input function. The filesystem, symlinks and the glob's own matching are not modelled.
- RubyCore.Downcase: handles ASCII letters only. Ruby's full Unicode case mapping is not modelled.
- RubyCore.SortBy: is a stable insertion sort, while Ruby's `sort_by` is not stable. Only "sorted by the key, and a permutation" is promised. The order of repositories whose names are equal ignoring case is therefore not the source's.
- `File.dirname` and `File.join` follow POSIX systems. Drive letters and backslashes on Windows are not modelled.
- `def repo_name.full_name` attaches a singleton method to the matched string. The model returns a `LocalName` value whose `FullName` is the name. For a nil match the source would define `full_name` on `NilClass`; that global side effect is not modelled.
- Nike.Process.Chdir: a directory exists or not according to a fixed set. Relative paths, permissions and other `Errno` failures are not distinguished.
- Nike.Process.JustDoIt: a handler is a function of the repository and its working directory. What the handler itself does is not modelled, including further `chdir` calls, output and prompts. `Git::Meta.interactive?` is a parameter. The handler's return value, which `Dir.chdir` with a block passes back, is reduced to `Completed`.
- The repository helpers `name.invert`, `fractional_index`, `local_path` and `parent_dir` are defined outside this core. Their values are fields of `Nike.Repository`.
- The `type:` argument is one of the seven listing types GitHub documents. An arbitrary symbol is not modelled.
- Hub.Hub.UserRepositories: listings are returned by value. In Ruby the caller gets the stored Array itself, so changing it in place (`sort!`, `reject!`) would change the remembered listing. That aliasing with the memo table is not modelled; the same holds for Hub.Hub.OrgRepositories and Hub.Hub.Orgs.
- Concurrency is not modelled. The source is single-threaded.
- lib/git/multi/version.rb is not part of this model. It only holds version constants.
