/** The behaviour of the Ruby core-library operations that the modelled code
    relies on: `nil`, String#<=>, String#downcase, Array#sort and
    Enumerable#sort_by, Enumerable#each_slice, the `%-Ns` directive of
    Kernel#format, String#rstrip and Array#join. */
module RubyCore {

  /** A value or Ruby's `nil`. */
  datatype Option<+T> = None | Some(value: T)

  // ---------------------------------------------------------------------------
  // String#<=>: code-unit-wise lexicographic order, a proper prefix first
  // ---------------------------------------------------------------------------

  predicate LexLessEq(a: string, b: string)
  {
    |a| == 0 || (|b| > 0 && (a[0] < b[0] || (a[0] == b[0] && LexLessEq(a[1..], b[1..]))))
  }

  lemma {:induction false} LexReflexive(a: string)
    ensures LexLessEq(a, a)
  {
    if |a| > 0 { LexReflexive(a[1..]); }
  }

  lemma {:induction false} LexTotal(a: string, b: string)
    ensures LexLessEq(a, b) || LexLessEq(b, a)
  {
    if |a| > 0 && |b| > 0 && a[0] == b[0] { LexTotal(a[1..], b[1..]); }
  }

  lemma {:induction false} LexTransitive(a: string, b: string, c: string)
    requires LexLessEq(a, b) && LexLessEq(b, c)
    ensures LexLessEq(a, c)
  {
    if |a| > 0 && a[0] == b[0] && b[0] == c[0] { LexTransitive(a[1..], b[1..], c[1..]); }
  }

  lemma {:induction false} LexAntisymmetric(a: string, b: string)
    requires LexLessEq(a, b) && LexLessEq(b, a)
    ensures a == b
  {
    if |a| > 0 {
      LexAntisymmetric(a[1..], b[1..]);
      assert a == [a[0]] + a[1..] && b == [b[0]] + b[1..];
    }
  }

  // ---------------------------------------------------------------------------
  // String#downcase, restricted to ASCII letters
  // ---------------------------------------------------------------------------

  predicate IsUpper(c: char) { 'A' <= c <= 'Z' }

  function DowncaseChar(c: char): char
  {
    if IsUpper(c) then (c as int + 32) as char else c
  }

  function Downcase(s: string): (r: string)
    ensures |r| == |s|
    ensures forall i :: 0 <= i < |r| ==> !IsUpper(r[i])
    ensures forall i :: 0 <= i < |s| && !IsUpper(s[i]) ==> r[i] == s[i]
    ensures forall i :: 0 <= i < |s| && IsUpper(s[i]) ==> r[i] as int == s[i] as int + 32
  {
    if s == [] then [] else [DowncaseChar(s[0])] + Downcase(s[1..])
  }

  // ---------------------------------------------------------------------------
  // Array#sort and Enumerable#sort_by
  // ---------------------------------------------------------------------------

  /** Ascending by the sort key, every pair of positions compared. */
  ghost predicate SortedBy<T>(s: seq<T>, key: T -> string)
  {
    forall i, j :: 0 <= i < j < |s| ==> LexLessEq(key(s[i]), key(s[j]))
  }

  /** Prepending an element whose key is no greater than every key keeps a
      sequence sorted. */
  lemma PrependSorted<T>(x: T, s: seq<T>, key: T -> string)
    requires SortedBy(s, key)
    requires forall y | y in multiset(s) :: LexLessEq(key(x), key(y))
    ensures SortedBy([x] + s, key)
  {
    var r := [x] + s;
    forall i, j | 0 <= i < j < |r| ensures LexLessEq(key(r[i]), key(r[j])) {
      if i == 0 {
        assert r[j] == s[j - 1] && s[j - 1] in multiset(s);
      } else {
        assert r[i] == s[i - 1] && r[j] == s[j - 1];
      }
    }
  }

  /** An element no greater than the head of a sorted sequence is no greater
      than any of its elements. */
  lemma BelowHead<T>(x: T, s: seq<T>, key: T -> string)
    requires SortedBy(s, key) && s != [] && LexLessEq(key(x), key(s[0]))
    ensures forall y | y in multiset(s) :: LexLessEq(key(x), key(y))
  {
    forall y | y in multiset(s) ensures LexLessEq(key(x), key(y)) {
      var k :| 0 <= k < |s| && s[k] == y;
      if k > 0 { LexTransitive(key(x), key(s[0]), key(s[k])); }
    }
  }

  /** The head of a sorted sequence is no greater than anything in its tail
      with an element greater than the head added. */
  lemma HeadBelowInserted<T>(x: T, s: seq<T>, rest: seq<T>, key: T -> string)
    requires SortedBy(s, key) && s != [] && !LexLessEq(key(x), key(s[0]))
    requires multiset(rest) == multiset(s[1..]) + multiset{x}
    ensures forall y | y in multiset(rest) :: LexLessEq(key(s[0]), key(y))
  {
    forall y | y in multiset(rest) ensures LexLessEq(key(s[0]), key(y)) {
      if y == x {
        LexTotal(key(x), key(s[0]));
      } else {
        assert y in multiset(s[1..]);
        var k :| 0 <= k < |s[1..]| && s[1..][k] == y;
        assert s[k + 1] == y;
      }
    }
  }

  /** Places `x` in front of the first element whose key is not smaller. */
  function Insert<T>(x: T, s: seq<T>, key: T -> string): (r: seq<T>)
    requires SortedBy(s, key)
    ensures multiset(r) == multiset(s) + multiset{x}
    ensures SortedBy(r, key)
  {
    if s == [] then [x]
    else if LexLessEq(key(x), key(s[0])) then
      BelowHead(x, s, key);
      PrependSorted(x, s, key);
      [x] + s
    else
      var rest := Insert(x, s[1..], key);
      assert s == [s[0]] + s[1..];
      HeadBelowInserted(x, s, rest, key);
      PrependSorted(s[0], rest, key);
      [s[0]] + rest
  }

  /** Sorts by key (an insertion sort: elements with equal keys keep their
      input order). */
  function SortBy<T>(s: seq<T>, key: T -> string): (r: seq<T>)
    ensures multiset(r) == multiset(s)
    ensures |r| == |s|
    ensures SortedBy(r, key)
  {
    if s == [] then []
    else
      assert s == [s[0]] + s[1..];
      Insert(s[0], SortBy(s[1..], key), key)
  }

  function Identity(s: string): string { s }

  /** Array#sort on strings. */
  function Sort(s: seq<string>): (r: seq<string>)
    ensures multiset(r) == multiset(s)
    ensures SortedBy(r, Identity)
  {
    SortBy(s, Identity)
  }

  /** The first element of a sorted sequence is its least element. */
  lemma HeadIsLeast(a: seq<string>, x: string)
    requires SortedBy(a, Identity) && x in multiset(a)
    ensures LexLessEq(a[0], x)
  {
    var i :| 0 <= i < |a| && a[i] == x;
    if i > 0 { assert LexLessEq(Identity(a[0]), Identity(a[i])); } else { LexReflexive(a[0]); }
  }

  /** Dropping the first element keeps a sequence sorted. */
  lemma SortedTail<T>(a: seq<T>, key: T -> string)
    requires |a| > 0 && SortedBy(a, key)
    ensures SortedBy(a[1..], key)
  {
    forall i, j | 0 <= i < j < |a| - 1 ensures LexLessEq(key(a[1..][i]), key(a[1..][j])) {
      assert a[1..][i] == a[i + 1] && a[1..][j] == a[j + 1];
    }
  }

  /** Two sequences with equal multisets and equal heads have tails with
      equal multisets. */
  lemma TailMultiset<T>(a: seq<T>, b: seq<T>)
    requires |a| > 0 && |b| > 0 && a[0] == b[0] && multiset(a) == multiset(b)
    ensures multiset(a[1..]) == multiset(b[1..])
  {
    assert a == [a[0]] + a[1..] && b == [b[0]] + b[1..];
    assert multiset(a) == multiset{a[0]} + multiset(a[1..]);
    assert multiset(b) == multiset{b[0]} + multiset(b[1..]);
    forall z ensures multiset(a[1..])[z] == multiset(b[1..])[z] {
      assert multiset(a)[z] == multiset{a[0]}[z] + multiset(a[1..])[z];
      assert multiset(b)[z] == multiset{b[0]}[z] + multiset(b[1..])[z];
    }
  }

  /** A sorted arrangement of a multiset of strings is unique. */
  lemma {:induction false} SortedUnique(a: seq<string>, b: seq<string>)
    requires SortedBy(a, Identity) && SortedBy(b, Identity)
    requires multiset(a) == multiset(b)
    ensures a == b
  {
    if a == [] {
      assert |b| == |multiset(b)| == 0;
    } else {
      assert |b| == |multiset(b)| == |multiset(a)| > 0;
      assert a[0] in multiset(a) && b[0] in multiset(b);
      HeadIsLeast(b, a[0]);
      HeadIsLeast(a, b[0]);
      LexAntisymmetric(a[0], b[0]);
      TailMultiset(a, b);
      SortedTail(a, Identity);
      SortedTail(b, Identity);
      SortedUnique(a[1..], b[1..]);
      assert a == [a[0]] + a[1..] && b == [b[0]] + b[1..];
    }
  }

  /** Sorting depends only on the multiset of the input. */
  lemma SortOrderIndependent(a: seq<string>, b: seq<string>)
    requires multiset(a) == multiset(b)
    ensures Sort(a) == Sort(b)
  {
    SortedUnique(Sort(a), Sort(b));
  }

  // ---------------------------------------------------------------------------
  // Enumerable#each_slice
  // ---------------------------------------------------------------------------

  function Flatten<T>(ss: seq<seq<T>>): seq<T>
  {
    if ss == [] then [] else ss[0] + Flatten(ss[1..])
  }

  /** An element of one of the sequences is an element of their
      concatenation. */
  lemma FlattenMember<T>(ss: seq<seq<T>>, k: nat, x: T)
    requires k < |ss| && x in ss[k]
    ensures x in Flatten(ss)
  {
    if k > 0 { FlattenMember(ss[1..], k - 1, x); }
  }

  /** each_slice(3): consecutive slices of three elements, the last one
      possibly shorter. */
  function EachSlice3<T>(s: seq<T>): (r: seq<seq<T>>)
    ensures |r| == (|s| + 2) / 3
    ensures Flatten(r) == s
    ensures forall k :: 0 <= k < |r| ==> 0 < |r[k]| <= 3
    ensures forall k :: 0 <= k < |r| - 1 ==> |r[k]| == 3
    decreases |s|
  {
    if s == [] then []
    else if |s| <= 3 then [s]
    else
      var rest := EachSlice3(s[3..]);
      assert s == s[..3] + s[3..];
      [s[..3]] + rest
  }

  // ---------------------------------------------------------------------------
  // format('%-Ns'), String#rstrip, Array#join
  // ---------------------------------------------------------------------------

  function Spaces(n: nat): (r: string)
    ensures |r| == n && forall k :: 0 <= k < n ==> r[k] == ' '
  {
    seq(n, _ => ' ')
  }

  /** `%-Ns`: left-justified in a field of at least `width` characters;
      never truncated. */
  function LeftJustify(s: string, width: nat): (r: string)
    ensures |r| == if |s| < width then width else |s|
    ensures r[..|s|] == s
    ensures forall k :: |s| <= k < |r| ==> r[k] == ' '
  {
    if |s| < width then s + Spaces(width - |s|) else s
  }

  /** The characters String#rstrip removes: NUL, tab, line feed, vertical
      tab, form feed, carriage return and space. */
  predicate IsStripped(c: char)
  {
    c == ' ' || c == '\t' || c == '\n' || c == '\r' || c == '\0' || c as int == 11 || c as int == 12
  }

  function Rstrip(s: string): (r: string)
    ensures |r| <= |s| && r == s[..|r|]
    ensures r == [] || !IsStripped(r[|r| - 1])
    ensures forall k :: |r| <= k < |s| ==> IsStripped(s[k])
  {
    if s == [] then []
    else if IsStripped(s[|s| - 1]) then Rstrip(s[..|s| - 1])
    else s
  }

  /** Trailing blanks never survive rstrip. */
  lemma {:induction false} RstripDropsBlanks(s: string, t: string)
    requires forall k :: 0 <= k < |t| ==> IsStripped(t[k])
    ensures Rstrip(s + t) == Rstrip(s)
    decreases |t|
  {
    if t != [] {
      var u := t[..|t| - 1];
      assert (s + t)[|s + t| - 1] == t[|t| - 1];
      assert (s + t)[..|s + t| - 1] == s + u;
      RstripDropsBlanks(s, u);
    } else {
      assert s + t == s;
    }
  }

  /** The combined length of some strings. */
  function TotalLength(parts: seq<string>): nat
  {
    if parts == [] then 0 else |parts[0]| + TotalLength(parts[1..])
  }

  /** Array#join: the parts in order with `sep` between neighbours, and
      nothing for no parts. */
  function Join(parts: seq<string>, sep: string): (r: string)
    ensures |r| == TotalLength(parts) + (if parts == [] then 0 else (|parts| - 1) * |sep|)
    ensures parts != [] ==> r[..|parts[0]|] == parts[0]
  {
    if parts == [] then []
    else if |parts| == 1 then parts[0]
    else parts[0] + sep + Join(parts[1..], sep)
  }

  /** Joining one more part puts one separator before it. */
  lemma {:induction false} JoinSnoc(parts: seq<string>, x: string, sep: string)
    requires parts != []
    ensures Join(parts + [x], sep) == Join(parts, sep) + sep + x
  {
    if |parts| > 1 {
      assert (parts + [x])[1..] == parts[1..] + [x];
      JoinSnoc(parts[1..], x, sep);
    } else {
      assert parts + [x] == [parts[0], x];
    }
  }

  /** A join ends with its last part. */
  lemma {:induction false} JoinLast(parts: seq<string>, sep: string)
    requires parts != []
    ensures |parts[|parts| - 1]| <= |Join(parts, sep)|
    ensures Join(parts, sep)[|Join(parts, sep)| - |parts[|parts| - 1]|..] == parts[|parts| - 1]
  {
    if |parts| > 1 {
      JoinLast(parts[1..], sep);
    }
  }

  /** When the separator holds `c` once, a join holds it as often as the
      parts do plus once per joint. */
  lemma {:induction false} JoinCount(parts: seq<string>, sep: string, c: char)
    requires multiset(sep)[c] == 1
    ensures multiset(Join(parts, sep))[c] == CountIn(parts, c) + (if parts == [] then 0 else |parts| - 1)
  {
    if |parts| > 1 {
      var tail := Join(parts[1..], sep);
      JoinCount(parts[1..], sep, c);
      assert Join(parts, sep) == parts[0] + sep + tail;
      assert multiset(parts[0] + sep + tail) == multiset(parts[0]) + multiset(sep) + multiset(tail);
    }
  }

  /** Total number of occurrences of `c` in all the parts. */
  function CountIn(parts: seq<string>, c: char): nat
  {
    if parts == [] then 0 else multiset(parts[0])[c] + CountIn(parts[1..], c)
  }
}
