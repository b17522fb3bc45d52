/** Git::Hub: lazily computed session facts about the authenticated GitHub
    user, two memo tables of repository listings keyed by (account, type), and
    the formatter that lists a repository's field names.

    The Octokit client is an oracle: each endpoint is a total function of the
    number of client requests made before it, so two requests of the same kind
    may be answered differently, as a real remote service may answer them. */
module Hub {
  import opened RubyCore

  // ---------------------------------------------------------------------------
  // The client
  // ---------------------------------------------------------------------------

  /** Octokit::Unauthorized, Faraday::ConnectionFailed, or any other error
      the client may raise. */
  datatype ClientError = Unauthorized | ConnectionFailed | OtherError(name: string)

  /** Either a returned value or an error raised out of the call. */
  datatype Outcome<+T> = Returned(value: T) | Raised(error: ClientError)

  /** The `type:` argument of the repository listings; `:owner` by default. */
  datatype ListingType = Owner | Member | All | Public | Private | Forks | Sources

  function TypeName(t: ListingType): string
  {
    match t
    case Owner => "owner"
    case Member => "member"
    case All => "all"
    case Public => "public"
    case Private => "private"
    case Forks => "forks"
    case Sources => "sources"
  }

  /** A repository record as the listings return it. */
  datatype Repo = Repo(name: string, fullName: string)

  datatype User = User(login: string)

  datatype Organization = Organization(login: string)

  /** Each endpoint answers the request made when `n` requests were made
      before it. */
  datatype Client = Client(
    validateCredentials: nat -> Outcome<()>,
    user: nat -> Outcome<User>,
    organizations: nat -> Outcome<seq<Organization>>,
    repositories: (nat, string, ListingType) -> Outcome<seq<Repo>>,
    orgRepositories: (nat, string, ListingType) -> Outcome<seq<Repo>>)

  /** The errors that `login` and `orgs` rescue. */
  predicate Rescued(e: ClientError)
  {
    e == Unauthorized || e == ConnectionFailed
  }

  /** The key listings are sorted by: the lower-cased name. */
  function NameKey(r: Repo): string
  {
    Downcase(r.name)
  }

  /** Ascending by lower-cased name. */
  ghost predicate SortedByName(repos: seq<Repo>)
  {
    forall i, j :: 0 <= i < j < |repos| ==> LexLessEq(NameKey(repos[i]), NameKey(repos[j]))
  }

  /** `sort_by { |repo| repo[:name].downcase }` */
  function SortByName(repos: seq<Repo>): (r: seq<Repo>)
    ensures multiset(r) == multiset(repos)
    ensures SortedByName(r)
  {
    var r := SortBy(repos, NameKey);
    assert SortedByName(r) by {
      forall i, j | 0 <= i < j < |r| ensures LexLessEq(NameKey(r[i]), NameKey(r[j])) {
        assert SortedBy(r, NameKey);
      }
    }
    r
  }

  /** `organizations.map(&:login)`: the logins, in the client's order. */
  function Logins(orgs: seq<Organization>): (r: seq<string>)
    ensures |r| == |orgs|
    ensures forall i :: 0 <= i < |orgs| ==> r[i] == orgs[i].login
  {
    if orgs == [] then [] else [orgs[0].login] + Logins(orgs[1..])
  }

  /** The message passed to `notify` before a listing is fetched. */
  function RefreshNotice(listing: ListingType, account: string): string
  {
    "Refreshing " + TypeName(listing) + " '" + account + "' repositories from GitHub"
  }

  /** The notice names the listing type and the account: different
      requests are announced differently. */
  lemma RefreshNoticeInjective(l: ListingType, a: string, l': ListingType, a': string)
    requires RefreshNotice(l, a) == RefreshNotice(l', a')
    ensures l == l' && a == a'
  {
    TypeNamePlain(l);
    TypeNamePlain(l');
    NoticeParts("Refreshing ", TypeName(l), a, "' repositories from GitHub", TypeName(l'), a');
  }

  /** Two lower-case words, each followed by a blank and a quote, in the
      same text after the same prefix and before the same suffix, are the
      same word with the same text after it. */
  lemma NoticeParts(pre: string, t: string, a: string, post: string, t': string, a': string)
    requires pre + t + " '" + a + post == pre + t' + " '" + a' + post
    requires forall k :: 0 <= k < |t| ==> 'a' <= t[k] <= 'z'
    requires forall k :: 0 <= k < |t'| ==> 'a' <= t'[k] <= 'z'
    ensures t == t' && a == a'
  {
    var n := pre + t + " '" + a + post;
    QuoteAfterWord(n, pre, t, a + post, t', a' + post);
    QuoteAfterWord(n, pre, t', a' + post, t, a + post);
    assert t == n[|pre|..|pre| + |t|] == t';
    assert a == n[|pre| + |t| + 2..|n| - |post|] == a';
  }

  /** Where the quote after one lower-case word falls, a longer
      lower-case word has a letter or its blank. */
  lemma QuoteAfterWord(n: string, pre: string, t: string, rest: string, t': string, rest': string)
    requires n == pre + t + " '" + rest && n == pre + t' + " '" + rest'
    requires forall k :: 0 <= k < |t'| ==> 'a' <= t'[k] <= 'z'
    ensures |t| >= |t'|
  {
    assert n[|pre| + |t| + 1] == '\'';
    forall k | |pre| <= k <= |pre| + |t'|
      ensures n[k] != '\''
    {
      if k < |pre| + |t'| {
        assert n[k] == t'[k - |pre|];
      } else {
        assert n[k] == ' ';
      }
    }
  }

  /** A listing type's name is a lower-case word. */
  lemma TypeNamePlain(l: ListingType)
    ensures forall k :: 0 <= k < |TypeName(l)| ==> 'a' <= TypeName(l)[k] <= 'z'
    ensures forall l' :: TypeName(l') == TypeName(l) ==> l' == l
  {
  }

  type Key = (string, ListingType)

  /** Every listing in a table is sorted by lower-cased name. */
  ghost predicate AllSorted(table: map<Key, seq<Repo>>)
  {
    forall k | k in table :: SortedByName(table[k])
  }

  /** Storing a sorted listing keeps a table's listings sorted. */
  lemma StoreSorted(table: map<Key, seq<Repo>>, key: Key, listing: seq<Repo>)
    requires AllSorted(table) && SortedByName(listing)
    ensures AllSorted(table[key := listing])
  {
  }

  // ---------------------------------------------------------------------------
  // The session: memoized facts and listings
  // ---------------------------------------------------------------------------

  class Hub {
    const client: Client
    /** Number of requests sent to the client so far. */
    var requests: nat
    /** @connected; Ruby's initial nil reads as false here, as it does for `||=`. */
    var connected: bool
    /** @login */
    var login: Option<string>
    /** @orgs */
    var orgs: Option<seq<string>>
    /** @user_repositories */
    var userRepositories: map<Key, seq<Repo>>
    /** @org_repositories */
    var orgRepositories: map<Key, seq<Repo>>
    /** The messages passed to `notify`, oldest first. */
    var notices: seq<string>

    /** Every stored listing is sorted by lower-cased name. */
    ghost predicate Valid()
      reads this
    {
      AllSorted(userRepositories) && AllSorted(orgRepositories)
    }

    constructor (client: Client)
      ensures Valid()
      ensures this.client == client && requests == 0 && notices == []
      ensures !connected && login == None && orgs == None
      ensures userRepositories == map[] && orgRepositories == map[]
    {
      this.client := client;
      requests := 0;
      connected := false;
      login := None;
      orgs := None;
      userRepositories := map[];
      orgRepositories := map[];
      notices := [];
    }

    /** `connected?`: true once credential validation has succeeded, false
        when it fails to connect (not remembered, so the next call validates
        again); any other error propagates. */
    method Connected() returns (r: Outcome<bool>)
      requires Valid()
      modifies this
      ensures Valid()
      ensures login == old(login) && orgs == old(orgs) && notices == old(notices)
      ensures userRepositories == old(userRepositories) && orgRepositories == old(orgRepositories)
      ensures old(connected) ==> r == Returned(true) && connected && requests == old(requests)
      ensures !old(connected) ==>
        requests == old(requests) + 1 &&
        match client.validateCredentials(old(requests))
        case Returned(_) => r == Returned(true) && connected
        case Raised(ConnectionFailed) => r == Returned(false) && !connected
        case Raised(e) => r == Raised(e) && !connected
    {
      if connected {
        return Returned(true);
      }
      var reply := client.validateCredentials(requests);
      requests := requests + 1;
      match reply
      case Returned(_) =>
        connected := true;
        r := Returned(true);
      case Raised(e) =>
        if e == ConnectionFailed {
          connected := false;
          r := Returned(false);
        } else {
          r := Raised(e);
        }
    }

    /** `login`: the authenticated user's login, remembered once known; nil on
        Unauthorized or ConnectionFailed (not remembered); any other error
        propagates. */
    method Login() returns (r: Outcome<Option<string>>)
      requires Valid()
      modifies this
      ensures Valid()
      ensures connected == old(connected) && orgs == old(orgs) && notices == old(notices)
      ensures userRepositories == old(userRepositories) && orgRepositories == old(orgRepositories)
      ensures old(login).Some? ==> r == Returned(old(login)) && login == old(login) && requests == old(requests)
      ensures old(login).None? ==>
        requests == old(requests) + 1 &&
        match client.user(old(requests))
        case Returned(u) => r == Returned(Some(u.login)) && login == Some(u.login)
        case Raised(e) => login == None && (if Rescued(e) then r == Returned(None) else r == Raised(e))
    {
      if login.Some? {
        return Returned(login);
      }
      var reply := client.user(requests);
      requests := requests + 1;
      match reply
      case Returned(u) =>
        login := Some(u.login);
        r := Returned(login);
      case Raised(e) =>
        if Rescued(e) {
          r := Returned(None);
        } else {
          r := Raised(e);
        }
    }

    /** `orgs`: the logins of the user's organizations in the client's order,
        or [] on Unauthorized or ConnectionFailed; either answer, [] included,
        is remembered. Any other error propagates and nothing is remembered. */
    method Orgs() returns (r: Outcome<seq<string>>)
      requires Valid()
      modifies this
      ensures Valid()
      ensures connected == old(connected) && login == old(login) && notices == old(notices)
      ensures userRepositories == old(userRepositories) && orgRepositories == old(orgRepositories)
      ensures old(orgs).Some? ==> r == Returned(old(orgs).value) && orgs == old(orgs) && requests == old(requests)
      ensures old(orgs).None? ==>
        requests == old(requests) + 1 &&
        match client.organizations(old(requests))
        case Returned(os) =>
          r.Returned? && orgs == Some(r.value) && |r.value| == |os| &&
          forall i :: 0 <= i < |os| ==> r.value[i] == os[i].login
        case Raised(e) =>
          if Rescued(e) then r == Returned([]) && orgs == Some([])
          else r == Raised(e) && orgs == None
    {
      if orgs.Some? {
        return Returned(orgs.value);
      }
      var reply := client.organizations(requests);
      requests := requests + 1;
      match reply
      case Returned(os) =>
        orgs := Some(Logins(os));
        r := Returned(orgs.value);
      case Raised(e) =>
        if Rescued(e) {
          orgs := Some([]);
          r := Returned([]);
        } else {
          r := Raised(e);
        }
    }

    /** `user_repositories(user, type = :owner)`: the first call for a key
        notifies, fetches once and stores the listing sorted by lower-cased
        name; later calls return the stored listing. A fetch error propagates
        and nothing is stored. */
    method UserRepositories(user: string, listing: ListingType := Owner) returns (r: Outcome<seq<Repo>>)
      requires Valid()
      modifies this
      ensures Valid()
      ensures connected == old(connected) && login == old(login) && orgs == old(orgs)
      ensures orgRepositories == old(orgRepositories)
      ensures r.Returned? ==>
        ((user, listing) in userRepositories && userRepositories[(user, listing)] == r.value)
      ensures (user, listing) in old(userRepositories) ==>
        r == Returned(old(userRepositories)[(user, listing)]) &&
        userRepositories == old(userRepositories) && requests == old(requests) && notices == old(notices)
      ensures (user, listing) !in old(userRepositories) ==>
        requests == old(requests) + 1 &&
        notices == old(notices) + [RefreshNotice(listing, user)] &&
        match client.repositories(old(requests), user, listing)
        case Returned(found) =>
          r.Returned? && multiset(r.value) == multiset(found) &&
          userRepositories == old(userRepositories)[(user, listing) := r.value]
        case Raised(e) => r == Raised(e) && userRepositories == old(userRepositories)
    {
      var key := (user, listing);
      if key in userRepositories {
        return Returned(userRepositories[key]);
      }
      notices := notices + [RefreshNotice(listing, user)];
      var reply := client.repositories(requests, user, listing);
      requests := requests + 1;
      match reply
      case Returned(found) =>
        var sorted := SortByName(found);
        StoreSorted(userRepositories, key, sorted);
        userRepositories := userRepositories[key := sorted];
        r := Returned(sorted);
      case Raised(e) =>
        r := Raised(e);
    }

    /** `org_repositories(org, type = :owner)`: the same memoization as
        UserRepositories, over its own table and the organization endpoint. */
    method OrgRepositories(org: string, listing: ListingType := Owner) returns (r: Outcome<seq<Repo>>)
      requires Valid()
      modifies this
      ensures Valid()
      ensures connected == old(connected) && login == old(login) && orgs == old(orgs)
      ensures userRepositories == old(userRepositories)
      ensures r.Returned? ==>
        ((org, listing) in orgRepositories && orgRepositories[(org, listing)] == r.value)
      ensures (org, listing) in old(orgRepositories) ==>
        r == Returned(old(orgRepositories)[(org, listing)]) &&
        orgRepositories == old(orgRepositories) && requests == old(requests) && notices == old(notices)
      ensures (org, listing) !in old(orgRepositories) ==>
        requests == old(requests) + 1 &&
        notices == old(notices) + [RefreshNotice(listing, org)] &&
        match client.orgRepositories(old(requests), org, listing)
        case Returned(found) =>
          r.Returned? && multiset(r.value) == multiset(found) &&
          orgRepositories == old(orgRepositories)[(org, listing) := r.value]
        case Raised(e) => r == Raised(e) && orgRepositories == old(orgRepositories)
    {
      var key := (org, listing);
      if key in orgRepositories {
        return Returned(orgRepositories[key]);
      }
      notices := notices + [RefreshNotice(listing, org)];
      var reply := client.orgRepositories(requests, org, listing);
      requests := requests + 1;
      match reply
      case Returned(found) =>
        var sorted := SortByName(found);
        StoreSorted(orgRepositories, key, sorted);
        orgRepositories := orgRepositories[key := sorted];
        r := Returned(sorted);
      case Raised(e) =>
        r := Raised(e);
    }
  }

  /** Two lookups of the same key, when the first one succeeds: at most one
      request, and both calls return the same listing. */
  method LookupTwice(hub: Hub, user: string, listing: ListingType) returns (first: Outcome<seq<Repo>>, second: Outcome<seq<Repo>>)
    requires hub.Valid()
    modifies hub
    ensures hub.Valid()
    ensures first.Returned? ==> second == first && hub.requests <= old(hub.requests) + 1
    ensures (user, listing) in old(hub.userRepositories) ==> hub.requests == old(hub.requests)
  {
    first := hub.UserRepositories(user, listing);
    second := hub.UserRepositories(user, listing);
  }

  // ---------------------------------------------------------------------------
  // query_args
  // ---------------------------------------------------------------------------

  /** The text between two rows of `query_args`. */
  const RowSeparator: string := "\n    "

  const ColumnWidth: nat := 20

  /** `format('%-20s %-20s %-20s', foo, bar, qux).rstrip`, a missing name
      (nil) formatting as the empty string. */
  function FormatRow(slice: seq<string>): (r: string)
    ensures r == [] || !IsStripped(r[|r| - 1])
    ensures (forall k :: 0 <= k < |slice| ==> |slice[k]| <= ColumnWidth) ==> |r| <= 3 * ColumnWidth + 2
  {
    var foo := if 0 < |slice| then slice[0] else "";
    var bar := if 1 < |slice| then slice[1] else "";
    var qux := if 2 < |slice| then slice[2] else "";
    Rstrip(LeftJustify(foo, ColumnWidth) + " " + LeftJustify(bar, ColumnWidth) + " " + LeftJustify(qux, ColumnWidth))
  }

  /** The rows of `query_args`: one per slice of three sorted names. */
  function QueryRows(fields: seq<string>): (rows: seq<string>)
    ensures |rows| == (|fields| + 2) / 3
  {
    var slices := EachSlice3(Sort(fields));
    seq(|slices|, k requires 0 <= k < |slices| => FormatRow(slices[k]))
  }

  /** `query_args` over the names `repository_fields` returned. */
  function QueryArgs(fields: seq<string>): (r: string)
    ensures fields == [] ==> r == []
    ensures 0 < |fields| <= 3 ==> r == FormatRow(Sort(fields))
  {
    Join(QueryRows(fields), RowSeparator)
  }

  /** The output depends only on which names there are, not on the order
      the client listed them in. */
  lemma QueryArgsOrderIndependent(a: seq<string>, b: seq<string>)
    requires multiset(a) == multiset(b)
    ensures QueryArgs(a) == QueryArgs(b)
  {
    SortOrderIndependent(a, b);
  }

  /** Padding only ever adds spaces. */
  lemma LeftJustifyChars(s: string, width: nat, c: char)
    requires c != ' ' && c !in s
    ensures c !in LeftJustify(s, width)
  {
    var r := LeftJustify(s, width);
    forall k | 0 <= k < |r| ensures r[k] != c {
      if k < |s| { assert r[k] == r[..|s|][k] == s[k]; }
    }
  }

  /** A row holds no newline when none of its names does. */
  lemma RowHasNoNewline(slice: seq<string>)
    requires forall i :: 0 <= i < |slice| ==> '\n' !in slice[i]
    ensures '\n' !in FormatRow(slice)
  {
    var foo := if 0 < |slice| then slice[0] else "";
    var bar := if 1 < |slice| then slice[1] else "";
    var qux := if 2 < |slice| then slice[2] else "";
    LeftJustifyChars(foo, ColumnWidth, '\n');
    LeftJustifyChars(bar, ColumnWidth, '\n');
    LeftJustifyChars(qux, ColumnWidth, '\n');
    var padded := LeftJustify(foo, ColumnWidth) + " " + LeftJustify(bar, ColumnWidth) + " " + LeftJustify(qux, ColumnWidth);
    assert '\n' !in padded;
    var r := Rstrip(padded);
    assert r == padded[..|r|];
  }

  lemma {:induction false} NoCountIn(parts: seq<string>, c: char)
    requires forall k :: 0 <= k < |parts| ==> c !in parts[k]
    ensures CountIn(parts, c) == 0
  {
    if parts != [] { NoCountIn(parts[1..], c); }
  }

  /** When no field name holds a newline, `query_args` holds one newline per
      row separator: ceil(n/3) rows for n names. */
  lemma QueryArgsLineCount(fields: seq<string>)
    requires forall i :: 0 <= i < |fields| ==> '\n' !in fields[i]
    ensures multiset(QueryArgs(fields))['\n'] == if fields == [] then 0 else (|fields| + 2) / 3 - 1
  {
    var sorted := Sort(fields);
    var slices := EachSlice3(sorted);
    var rows := QueryRows(fields);
    forall k | 0 <= k < |rows| ensures '\n' !in rows[k] {
      forall i | 0 <= i < |slices[k]| ensures '\n' !in slices[k][i] {
        FlattenMember(slices, k, slices[k][i]);
        assert slices[k][i] in multiset(fields);
      }
      RowHasNoNewline(slices[k]);
    }
    NoCountIn(rows, '\n');
    assert multiset(RowSeparator)['\n'] == 1;
    JoinCount(rows, RowSeparator, '\n');
  }

  /** A non-empty name whose last character `rstrip` keeps. */
  predicate EndsVisibly(name: string)
  {
    name != [] && !IsStripped(name[|name| - 1])
  }

  /** Rstrip of `head` followed by padding gives `head` back. */
  lemma StripPadding(head: string, blanks: string)
    requires EndsVisibly(head)
    requires forall k :: 0 <= k < |blanks| ==> IsStripped(blanks[k])
    ensures Rstrip(head + blanks) == head
  {
    RstripDropsBlanks(head, blanks);
  }

  lemma PaddedSplit(name: string)
    ensures LeftJustify(name, ColumnWidth) == name + LeftJustify(name, ColumnWidth)[|name|..]
  {
    var a := LeftJustify(name, ColumnWidth);
    assert a == a[..|name|] + a[|name|..];
  }

  /** A one-name row is the name itself. */
  lemma RowText1(slice: seq<string>)
    requires |slice| == 1 && EndsVisibly(slice[0])
    ensures FormatRow(slice) == slice[0]
  {
    var foo := slice[0];
    assert slice == [foo];
    var a, b := LeftJustify(foo, ColumnWidth), LeftJustify("", ColumnWidth);
    PaddedSplit(foo);
    assert a + " " + b + " " + b == foo + (a[|foo|..] + " " + b + " " + b);
    StripPadding(foo, a[|foo|..] + " " + b + " " + b);
  }

  lemma RowText2(foo: string, bar: string)
    requires EndsVisibly(bar)
    ensures FormatRow([foo, bar]) == LeftJustify(foo, ColumnWidth) + " " + bar
  {
    var a, b, c := LeftJustify(foo, ColumnWidth), LeftJustify(bar, ColumnWidth), LeftJustify("", ColumnWidth);
    PaddedSplit(bar);
    assert a + " " + b + " " + c == (a + " " + bar) + (b[|bar|..] + " " + c);
    StripPadding(a + " " + bar, b[|bar|..] + " " + c);
  }

  lemma RowText3(foo: string, bar: string, qux: string)
    requires EndsVisibly(qux)
    ensures FormatRow([foo, bar, qux]) ==
      LeftJustify(foo, ColumnWidth) + " " + LeftJustify(bar, ColumnWidth) + " " + qux
  {
    var a, b, c := LeftJustify(foo, ColumnWidth), LeftJustify(bar, ColumnWidth), LeftJustify(qux, ColumnWidth);
    PaddedSplit(qux);
    assert a + " " + b + " " + c == (a + " " + b + " " + qux) + c[|qux|..];
    StripPadding(a + " " + b + " " + qux, c[|qux|..]);
  }

  lemma Columns2(slice: seq<string>)
    requires |slice| == 2 && |slice[0]| <= ColumnWidth && EndsVisibly(slice[1])
    ensures |FormatRow(slice)| == 21 + |slice[1]|
    ensures forall k :: 0 <= k < 2 ==> FormatRow(slice)[21 * k .. 21 * k + |slice[k]|] == slice[k]
  {
    var foo, bar := slice[0], slice[1];
    assert slice == [foo, bar];
    RowText2(foo, bar);
    var a := LeftJustify(foo, ColumnWidth);
    var row := a + " " + bar;
    assert row[..|foo|] == a[..|foo|];
    assert row[21..21 + |bar|] == bar;
  }

  lemma Columns3(slice: seq<string>)
    requires |slice| == 3 && |slice[0]| <= ColumnWidth && |slice[1]| <= ColumnWidth && EndsVisibly(slice[2])
    ensures |FormatRow(slice)| == 42 + |slice[2]|
    ensures forall k :: 0 <= k < 3 ==> FormatRow(slice)[21 * k .. 21 * k + |slice[k]|] == slice[k]
  {
    var foo, bar, qux := slice[0], slice[1], slice[2];
    assert slice == [foo, bar, qux];
    RowText3(foo, bar, qux);
    var a, b := LeftJustify(foo, ColumnWidth), LeftJustify(bar, ColumnWidth);
    var row := a + " " + b + " " + qux;
    assert row[..|foo|] == a[..|foo|];
    assert row[21..21 + |bar|] == b[..|bar|];
    assert row[42..42 + |qux|] == qux;
  }

  /** The layout of one row: names start at columns 0, 21 and 42, and the
      row ends with the last name, provided the names before it fit their
      20-character columns and the last one does not end in a blank. */
  lemma RowLayout(slice: seq<string>)
    requires 0 < |slice| <= 3
    requires forall k :: 0 <= k < |slice| - 1 ==> |slice[k]| <= ColumnWidth
    requires EndsVisibly(slice[|slice| - 1])
    ensures |FormatRow(slice)| == 21 * (|slice| - 1) + |slice[|slice| - 1]|
    ensures forall k :: 0 <= k < |slice| ==> FormatRow(slice)[21 * k .. 21 * k + |slice[k]|] == slice[k]
  {
    if |slice| == 1 {
      RowText1(slice);
    } else if |slice| == 2 {
      Columns2(slice);
    } else {
      Columns3(slice);
    }
  }

  /** A listing the client returns as `b`, `A` is stored as `A`, `b`. */
  lemma AcmeListing()
    ensures SortByName([Repo("b", "acme/b"), Repo("A", "acme/A")]) == [Repo("A", "acme/A"), Repo("b", "acme/b")]
  {
    var r := SortByName([Repo("b", "acme/b"), Repo("A", "acme/A")]);
    assert NameKey(Repo("A", "acme/A")) == "a";
    assert NameKey(Repo("b", "acme/b")) == "b";
    assert multiset(r) == multiset{Repo("b", "acme/b"), Repo("A", "acme/A")};
    assert |r| == 2;
    assert !LexLessEq("b", "a");
  }
}
