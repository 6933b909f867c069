/** Helpers shared by every module of the model: an Option/Result pair, the
    string operations the source takes from Go's `strings` package and from
    JavaScript's String.prototype, ordered association lists standing for
    JavaScript `Map`s, and a stable insertion sort standing for
    `Array.prototype.sort` (stable since ECMAScript 2019). */
module Common {

  datatype Option<T> = None | Some(value: T)

  datatype Result<T> = Ok(value: T) | Err(error: string)

  // ---------------------------------------------------------------------
  // Strings
  // ---------------------------------------------------------------------

  /** An optional string in a JavaScript truthiness test: present and non-empty. */
  predicate IsSet(o: Option<string>) {
    o.Some? && o.value != ""
  }

  predicate HasPrefix(s: string, p: string) {
    |p| <= |s| && s[..|p|] == p
  }

  /** Go's strings.HasSuffix and JavaScript's String.prototype.endsWith. */
  predicate HasSuffix(s: string, p: string) {
    |p| <= |s| && s[|s| - |p|..] == p
  }

  /** Go's strings.TrimSuffix: removes one occurrence of the suffix, if present. */
  function TrimSuffix(s: string, p: string): (r: string)
    ensures HasSuffix(s, p) ==> r + p == s
    ensures !HasSuffix(s, p) ==> r == s
  {
    if HasSuffix(s, p) then s[..|s| - |p|] else s
  }

  /** JavaScript's String.prototype.includes. */
  predicate Contains(hay: string, needle: string)
    decreases |hay|
  {
    HasPrefix(hay, needle) || (|hay| > 0 && Contains(hay[1..], needle))
  }

  lemma {:induction false} ContainsEmpty(hay: string)
    ensures Contains(hay, "")
  {
  }

  /** `s.split(c).pop()`: the text after the last `c`, or all of `s` without one. */
  function AfterLast(s: string, c: char): string
  {
    if s == [] then [] else if s[|s| - 1] == c then [] else AfterLast(s[..|s| - 1], c) + [s[|s| - 1]]
  }

  lemma {:induction false} AfterLastShape(s: string, c: char)
    ensures var r := AfterLast(s, c);
      && |r| <= |s| && r == s[|s| - |r|..]
      && c !in r
      && (|r| < |s| ==> s[|s| - |r| - 1] == c)
    decreases |s|
  {
    if s != [] && s[|s| - 1] != c {
      AfterLastShape(s[..|s| - 1], c);
    }
  }

  /** String.prototype.toLowerCase, restricted to the ASCII letters. */
  function LowerChar(c: char): char {
    if 'A' <= c <= 'Z' then (c as int + 32) as char else c
  }

  function Lower(s: string): (r: string)
    ensures |r| == |s|
    ensures forall i :: 0 <= i < |s| ==> r[i] == LowerChar(s[i])
  {
    if s == [] then [] else [LowerChar(s[0])] + Lower(s[1..])
  }

  /** The characters String.prototype.trim removes: ECMAScript's WhiteSpace
      and LineTerminator productions. */
  predicate IsJsSpace(c: char) {
    c == '\t' || c == '\n' || c == '\U{B}' || c == '\U{C}' || c == '\r' || c == ' '
    || c == '\U{A0}' || c == '\U{1680}' || ('\U{2000}' <= c <= '\U{200A}')
    || c == '\U{2028}' || c == '\U{2029}' || c == '\U{202F}' || c == '\U{205F}'
    || c == '\U{3000}' || c == '\U{FEFF}'
  }

  /** `s.trim() === ''` */
  predicate IsBlank(s: string) {
    forall i :: 0 <= i < |s| ==> IsJsSpace(s[i])
  }

  function TrimStart(s: string): (r: string)
    ensures |r| <= |s| && r == s[|s| - |r|..]
    ensures r == [] || !IsJsSpace(r[0])
  {
    if s != [] && IsJsSpace(s[0]) then TrimStart(s[1..]) else s
  }

  function TrimEnd(s: string): (r: string)
    ensures |r| <= |s| && r == s[..|r|]
    ensures r == [] || !IsJsSpace(r[|r| - 1])
  {
    if s != [] && IsJsSpace(s[|s| - 1]) then TrimEnd(s[..|s| - 1]) else s
  }

  /** String.prototype.trim */
  function Trim(s: string): string {
    TrimEnd(TrimStart(s))
  }

  lemma {:induction false} TrimStartEmptyIffBlank(s: string)
    ensures TrimStart(s) == [] <==> IsBlank(s)
    decreases |s|
  {
    if s != [] && IsJsSpace(s[0]) {
      TrimStartEmptyIffBlank(s[1..]);
      assert IsBlank(s) <==> IsBlank(s[1..]) by {
        assert forall i :: 0 < i < |s| ==> s[i] == s[1..][i - 1];
      }
    }
  }

  lemma {:induction false} TrimEndEmptyIffBlank(s: string)
    ensures TrimEnd(s) == [] <==> IsBlank(s)
    decreases |s|
  {
    if s != [] && IsJsSpace(s[|s| - 1]) {
      TrimEndEmptyIffBlank(s[..|s| - 1]);
      assert IsBlank(s) <==> IsBlank(s[..|s| - 1]) by {
        assert forall i :: 0 <= i < |s| - 1 ==> s[i] == s[..|s| - 1][i];
      }
    }
  }

  /** `s.trim()` is empty exactly when `s` consists of white space only. */
  lemma TrimEmptyIffBlank(s: string)
    ensures Trim(s) == [] <==> IsBlank(s)
  {
    var t := TrimStart(s);
    TrimStartEmptyIffBlank(s);
    TrimEndEmptyIffBlank(t);
    assert t != [] ==> !IsBlank(t);
  }

  /** Lexicographic order on code points. Go's string comparison orders the
      UTF-8 bytes, which is the same order for valid UTF-8. */
  predicate StrLe(a: string, b: string)
    decreases |a|
  {
    a == [] || (b != [] && (a[0] < b[0] || (a[0] == b[0] && StrLe(a[1..], b[1..]))))
  }

  lemma {:induction false} StrLeTotal(a: string, b: string)
    ensures StrLe(a, b) || StrLe(b, a)
    decreases |a|
  {
    if a != [] && b != [] && a[0] == b[0] {
      StrLeTotal(a[1..], b[1..]);
    }
  }

  lemma {:induction false} StrLeTransitive(a: string, b: string, c: string)
    requires StrLe(a, b) && StrLe(b, c)
    ensures StrLe(a, c)
    decreases |a|
  {
    if a != [] && a[0] == b[0] && b[0] == c[0] {
      StrLeTransitive(a[1..], b[1..], c[1..]);
    }
  }

  lemma {:induction false} StrLeAntisymmetric(a: string, b: string)
    requires StrLe(a, b) && StrLe(b, a)
    ensures a == b
    decreases |a|
  {
    if a != [] {
      StrLeAntisymmetric(a[1..], b[1..]);
      assert a == [a[0]] + a[1..] && b == [b[0]] + b[1..];
    }
  }

  /** A decimal digit character. */
  function DigitChar(d: nat): char
    requires d < 10
  {
    ('0' as int + d) as char
  }

  predicate IsDigits(s: string) {
    forall i :: 0 <= i < |s| ==> '0' <= s[i] <= '9'
  }

  /** The decimal text of a non-negative integer, as a template literal
      `${n}` writes it. */
  function NatToString(n: nat): (r: string)
    ensures |r| > 0 && IsDigits(r)
    ensures |r| > 1 ==> r[0] != '0'
    decreases n
  {
    if n < 10 then [DigitChar(n)] else NatToString(n / 10) + [DigitChar(n % 10)]
  }

  /** The value a string of decimal digits denotes. */
  function DecimalValue(s: string): nat
    requires IsDigits(s)
  {
    if s == [] then 0 else 10 * DecimalValue(s[..|s| - 1]) + (s[|s| - 1] as int - '0' as int)
  }

  lemma {:induction false} DecimalRoundTrip(n: nat)
    ensures DecimalValue(NatToString(n)) == n
    decreases n
  {
    if n >= 10 {
      DecimalRoundTrip(n / 10);
      var r := NatToString(n);
      assert r[..|r| - 1] == NatToString(n / 10);
    }
  }

  /** Code-point order is a total preorder, so it can stand in for a locale
      order in the worked examples. */
  function CodePointOrder(): (string, string) -> bool {
    (a: string, b: string) => StrLe(a, b)
  }

  lemma StrLePreorder()
    ensures TotalPreorder(CodePointOrder())
  {
    forall a: string, b: string ensures StrLe(a, b) || StrLe(b, a) {
      StrLeTotal(a, b);
    }
    forall a: string, b: string, c: string | StrLe(a, b) && StrLe(b, c) ensures StrLe(a, c) {
      StrLeTransitive(a, b, c);
    }
  }

  // ---------------------------------------------------------------------
  // Ordered association lists (JavaScript Map)
  // ---------------------------------------------------------------------

  /** A JavaScript Map: entries in insertion order, keys unique. */
  ghost predicate UniqueKeys<K, V>(m: seq<(K, V)>) {
    forall i, j :: 0 <= i < j < |m| ==> m[i].0 != m[j].0
  }

  /** Map.prototype.keys(), in insertion order. */
  function Keys<K, V>(m: seq<(K, V)>): (ks: seq<K>)
    ensures |ks| == |m|
    ensures forall i :: 0 <= i < |m| ==> ks[i] == m[i].0
  {
    if m == [] then [] else [m[0].0] + Keys(m[1..])
  }

  /** Map.prototype.values(), in insertion order. */
  function Values<K, V>(m: seq<(K, V)>): (vs: seq<V>)
    ensures |vs| == |m|
    ensures forall i :: 0 <= i < |m| ==> vs[i] == m[i].1
  {
    if m == [] then [] else [m[0].1] + Values(m[1..])
  }

  /** Map.prototype.get */
  function Get<K(==), V>(m: seq<(K, V)>, k: K): (r: Option<V>)
    ensures r.None? <==> k !in Keys(m)
    ensures r.Some? ==> (k, r.value) in m
  {
    if m == [] then None else if m[0].0 == k then Some(m[0].1) else Get(m[1..], k)
  }

  /** `m.get(k) || d` for a value that is never falsy (a Map or an array). */
  function GetOr<K(==), V>(m: seq<(K, V)>, k: K, d: V): (r: V)
    ensures k in Keys(m) ==> (k, r) in m
    ensures k !in Keys(m) ==> r == d
  {
    match Get(m, k)
    case Some(v) => v
    case None => d
  }

  /** Map.prototype.set: an existing key keeps its position, a new key goes last. */
  function Put<K(==,!new), V>(m: seq<(K, V)>, k: K, v: V): (r: seq<(K, V)>)
    ensures k in Keys(m) ==> Keys(r) == Keys(m)
    ensures k !in Keys(m) ==> Keys(r) == Keys(m) + [k]
    ensures forall k' :: Get(r, k') == if k' == k then Some(v) else Get(m, k')
    ensures forall e :: e in r ==> e == (k, v) || e in m
  {
    if m == [] then [(k, v)]
    else if m[0].0 == k then [(k, v)] + m[1..]
    else [m[0]] + Put(m[1..], k, v)
  }

  /** Map.prototype.delete: the others keep their order. */
  function Delete<K(==,!new), V>(m: seq<(K, V)>, k: K): (r: seq<(K, V)>)
    requires UniqueKeys(m)
    ensures UniqueKeys(r)
    ensures Keys(r) == RemoveAll(Keys(m), k)
    ensures forall k' :: Get(r, k') == if k' == k then None else Get(m, k')
    ensures forall e :: e in r ==> e in m
  {
    if m == [] then []
    else if m[0].0 == k then
      assert Keys(m) == [k] + Keys(m[1..]);
      assert k !in Keys(m[1..]);
      RemoveAllAbsent(Keys(m[1..]), k);
      m[1..]
    else
      var r := Delete(m[1..], k);
      assert m[0].0 !in Keys(m[1..]);
      assert m[0].0 !in Keys(r);
      assert Keys(m) == [m[0].0] + Keys(m[1..]);
      assert Keys([m[0]] + r) == [m[0].0] + Keys(r);
      [m[0]] + r
  }

  /** Looking a key up in a list with one more entry at the end. */
  lemma {:induction false} GetSnoc<K, V>(m: seq<(K, V)>, e: (K, V), k: K)
    ensures Get(m + [e], k) == if k in Keys(m) then Get(m, k) else if k == e.0 then Some(e.1) else None
  {
    if m != [] {
      assert (m + [e])[1..] == m[1..] + [e];
      GetSnoc(m[1..], e, k);
      assert Keys(m) == [m[0].0] + Keys(m[1..]);
    }
  }

  lemma PutUnique<K(!new), V>(m: seq<(K, V)>, k: K, v: V)
    requires UniqueKeys(m)
    ensures UniqueKeys(Put(m, k, v))
  {
    var r := Put(m, k, v);
    forall i, j | 0 <= i < j < |r| ensures r[i].0 != r[j].0 {
      assert Keys(r)[i] == r[i].0 && Keys(r)[j] == r[j].0;
      assert Keys(m)[i] == m[i].0 && (j < |m| ==> Keys(m)[j] == m[j].0);
    }
  }

  /** After a set, the keys are the old ones and the key that was set. */
  lemma PutKeysMembers<K(!new), V>(m: seq<(K, V)>, k: K, v: V)
    ensures forall q :: q in Keys(Put(m, k, v)) <==> q == k || q in Keys(m)
  {
  }

  /** Setting a key to the value it already has changes nothing. */
  lemma {:induction false} PutSame<K(!new), V>(m: seq<(K, V)>, k: K, v: V)
    requires UniqueKeys(m) && Get(m, k) == Some(v)
    ensures Put(m, k, v) == m
  {
    if m[0].0 != k {
      UniqueKeysTail(m);
      assert Get(m[1..], k) == Some(v);
      PutSame(m[1..], k, v);
      assert Put(m, k, v) == [m[0]] + Put(m[1..], k, v);
    } else {
      assert m[0] == (k, v);
    }
  }

  /** Dropping the last entry keeps the keys unique, and its key is not
      among the others. */
  lemma UniqueKeysInit<K, V>(m: seq<(K, V)>)
    requires m != [] && UniqueKeys(m)
    ensures UniqueKeys(m[..|m| - 1]) && m[|m| - 1].0 !in Keys(m[..|m| - 1])
  {
    var init := m[..|m| - 1];
    forall i, j | 0 <= i < j < |init| ensures init[i].0 != init[j].0 {
      assert init[i] == m[i] && init[j] == m[j];
    }
    forall k | 0 <= k < |init| ensures Keys(init)[k] != m[|m| - 1].0 {
      assert init[k] == m[k];
    }
  }

  lemma UniqueKeysTail<K, V>(m: seq<(K, V)>)
    requires m != [] && UniqueKeys(m)
    ensures UniqueKeys(m[1..])
  {
    forall i, j | 0 <= i < j < |m| - 1 ensures m[1..][i].0 != m[1..][j].0 {
      assert m[1..][i] == m[i + 1] && m[1..][j] == m[j + 1];
    }
  }

  /** A second set of the same key overrides the first in place. */
  lemma {:induction false} PutPut<K(!new), V>(m: seq<(K, V)>, k: K, a: V, b: V)
    ensures Put(Put(m, k, a), k, b) == Put(m, k, b)
  {
    if m != [] && m[0].0 != k {
      PutPut(m[1..], k, a, b);
    }
  }

  /** The keys of the list, as a set (for "k in map"). */
  lemma UniqueKeysIndex<K, V>(m: seq<(K, V)>, i: int)
    requires UniqueKeys(m) && 0 <= i < |m|
    ensures Get(m, m[i].0) == Some(m[i].1)
  {
    if i > 0 {
      UniqueKeysIndex(m[1..], i - 1);
    }
  }

  // ---------------------------------------------------------------------
  // Sequences
  // ---------------------------------------------------------------------

  /** `xs.filter(x => x !== k)`: every occurrence removed, the rest in order. */
  function RemoveAll<T(==,!new)>(xs: seq<T>, k: T): (r: seq<T>)
    ensures k !in r
    ensures forall x :: x in r <==> x in xs && x != k
    ensures |r| <= |xs|
  {
    if xs == [] then [] else if xs[0] == k then RemoveAll(xs[1..], k) else [xs[0]] + RemoveAll(xs[1..], k)
  }

  lemma RemoveAllAbsent<T(!new)>(xs: seq<T>, k: T)
    requires k !in xs
    ensures RemoveAll(xs, k) == xs
  {
  }

  /** `xs.filter(p)`: the elements satisfying `p`, in their order. */
  function Filter<T(!new)>(xs: seq<T>, p: T -> bool): (r: seq<T>)
    ensures |r| <= |xs|
    ensures forall x :: x in r <==> x in xs && p(x)
    ensures (forall x :: x in xs ==> p(x)) ==> r == xs
    ensures Subsequence(r, xs)
  {
    if xs == [] then []
    else
      var t := Filter(xs[1..], p);
      if p(xs[0]) then
        assert ([xs[0]] + t)[1..] == t;
        [xs[0]] + t
      else
        t
  }

  /** `a` is `b` with some elements left out, the rest in order. */
  ghost predicate Subsequence<T>(a: seq<T>, b: seq<T>)
    decreases |b|
  {
    if a == [] then true
    else if b == [] then false
    else (a[0] == b[0] && Subsequence(a[1..], b[1..])) || Subsequence(a, b[1..])
  }

  lemma {:induction false} SubsequenceReflexive<T>(s: seq<T>)
    ensures Subsequence(s, s)
    decreases |s|
  {
    if s != [] {
      SubsequenceReflexive(s[1..]);
    }
  }

  lemma {:induction false} SubsequenceTransitive<T>(a: seq<T>, b: seq<T>, c: seq<T>)
    requires Subsequence(a, b) && Subsequence(b, c)
    ensures Subsequence(a, c)
    decreases |c|
  {
    if a != [] {
      if b[0] == c[0] && Subsequence(b[1..], c[1..]) {
        if a[0] == b[0] && Subsequence(a[1..], b[1..]) {
          SubsequenceTransitive(a[1..], b[1..], c[1..]);
        } else {
          SubsequenceTransitive(a, b[1..], c[1..]);
        }
      } else {
        SubsequenceTransitive(a, b, c[1..]);
      }
    }
  }

  /** Removing one element by position leaves a subsequence. */
  lemma {:induction false} SpliceSubsequence<T>(s: seq<T>, i: int)
    requires 0 <= i < |s|
    ensures Subsequence(s[..i] + s[i + 1..], s)
    decreases i
  {
    if i == 0 {
      assert s[..0] + s[1..] == s[1..];
      SubsequenceReflexive(s[1..]);
    } else {
      var r := s[..i] + s[i + 1..];
      SpliceSubsequence(s[1..], i - 1);
      assert r[0] == s[0];
      assert r[1..] == s[1..][..i - 1] + s[1..][i..];
    }
  }

  /** Removing position i keeps every other element. */
  lemma SpliceKeeps<T>(s: seq<T>, i: int, x: T)
    requires 0 <= i < |s| && x in s && x != s[i]
    ensures x in s[..i] + s[i + 1..]
  {
    var k :| 0 <= k < |s| && s[k] == x;
    if k < i {
      assert (s[..i] + s[i + 1..])[k] == x;
    } else {
      assert (s[..i] + s[i + 1..])[k - 1] == x;
    }
  }

  /** Removing position i of a distinct list leaves a distinct list without
      the removed element. */
  lemma SpliceDistinct<T>(s: seq<T>, i: int)
    requires 0 <= i < |s| && Distinct(s)
    ensures Distinct(s[..i] + s[i + 1..]) && s[i] !in s[..i] + s[i + 1..]
  {
    var r := s[..i] + s[i + 1..];
    assert forall k :: 0 <= k < |r| ==> r[k] == s[if k < i then k else k + 1];
    forall k, l | 0 <= k < l < |r| ensures r[k] != r[l] {
      assert r[k] == s[if k < i then k else k + 1] && r[l] == s[if l < i then l else l + 1];
    }
    forall k | 0 <= k < |r| ensures r[k] != s[i] {
      assert r[k] == s[if k < i then k else k + 1];
    }
  }

  /** Array.prototype.indexOf */
  function IndexOf<T(==)>(xs: seq<T>, x: T): (r: int)
    ensures -1 <= r < |xs|
    ensures r == -1 <==> x !in xs
    ensures r >= 0 ==> xs[r] == x && x !in xs[..r]
  {
    if xs == [] then -1
    else if xs[0] == x then 0
    else var r := IndexOf(xs[1..], x); if r == -1 then -1 else r + 1
  }

  /** The index where `x` first appears is IndexOf's answer. */
  lemma IndexOfFirst<T>(xs: seq<T>, x: T, i: int)
    requires 0 <= i < |xs| && xs[i] == x && x !in xs[..i]
    ensures IndexOf(xs, x) == i
  {
  }

  /** No element twice. */
  ghost predicate Distinct<T>(xs: seq<T>) {
    forall i, j :: 0 <= i < j < |xs| ==> xs[i] != xs[j]
  }

  /** Dropping the last element of a distinct list leaves a distinct list
      that no longer holds that element. */
  lemma DistinctInit<T>(s: seq<T>)
    requires s != [] && Distinct(s)
    ensures Distinct(s[..|s| - 1]) && s[|s| - 1] !in s[..|s| - 1]
  {
    var init := s[..|s| - 1];
    forall i, j | 0 <= i < j < |init| ensures init[i] != init[j] {
      assert init[i] == s[i] && init[j] == s[j];
    }
    forall k | 0 <= k < |init| ensures init[k] != s[|s| - 1] {
      assert init[k] == s[k];
    }
  }

  /** `Array.from(new Set(xs))`: first occurrences, in order. */
  function Dedup<T(==,!new)>(xs: seq<T>): (r: seq<T>)
    ensures Distinct(r)
    ensures forall x :: x in r <==> x in xs
  {
    DedupFrom([], xs)
  }

  function DedupFrom<T(==,!new)>(acc: seq<T>, xs: seq<T>): (r: seq<T>)
    requires Distinct(acc)
    ensures Distinct(r)
    ensures HasPrefixSeq(r, acc)
    ensures forall x :: x in r <==> x in acc || x in xs
    decreases |xs|
  {
    if xs == [] then acc
    else if xs[0] in acc then DedupFrom(acc, xs[1..])
    else DedupFrom(acc + [xs[0]], xs[1..])
  }

  /** Dedup of a list that starts with distinct elements keeps them first. */
  lemma {:induction false} DedupFromDistinctPrefix<T(!new)>(acc: seq<T>, a: seq<T>, b: seq<T>)
    requires Distinct(acc) && Distinct(acc + a)
    ensures DedupFrom(acc, a + b) == DedupFrom(acc + a, b)
    decreases |a|
  {
    if a != [] {
      assert (a + b)[0] == a[0] && (a + b)[1..] == a[1..] + b;
      assert a[0] !in acc by {
        assert (acc + a)[|acc|] == a[0];
        assert forall k :: 0 <= k < |acc| ==> (acc + a)[k] == acc[k];
      }
      assert acc + [a[0]] + a[1..] == acc + a;
      assert acc + [a[0]] == (acc + a)[..|acc| + 1];
      DedupFromDistinctPrefix(acc + [a[0]], a[1..], b);
    } else {
      assert a + b == b && acc + a == acc;
    }
  }

  ghost predicate HasPrefixSeq<T>(s: seq<T>, p: seq<T>) {
    |p| <= |s| && s[..|p|] == p
  }

  /** A sequence without repeats holds each value at most once. */
  lemma {:induction false} DistinctMultiplicity<T>(s: seq<T>, x: T)
    requires Distinct(s)
    ensures multiset(s)[x] <= 1
  {
    if s != [] {
      assert s == [s[0]] + s[1..];
      assert Distinct(s[1..]) by {
        forall i, j | 0 <= i < j < |s[1..]| ensures s[1..][i] != s[1..][j] {
          assert s[1..][i] == s[i + 1] && s[1..][j] == s[j + 1];
        }
      }
      DistinctMultiplicity(s[1..], x);
      if x == s[0] {
        assert x !in s[1..] by {
          forall k | 0 <= k < |s[1..]| ensures s[1..][k] != x {
            assert s[1..][k] == s[k + 1];
          }
        }
      }
    }
  }

  /** Conversely, a sequence holding each value at most once has no repeats. */
  lemma {:induction false} MultiplicityDistinct<T>(s: seq<T>)
    requires forall x :: multiset(s)[x] <= 1
    ensures Distinct(s)
  {
    if s != [] {
      assert s == [s[0]] + s[1..];
      assert forall x :: multiset(s[1..])[x] <= multiset(s)[x];
      MultiplicityDistinct(s[1..]);
      assert s[0] !in multiset(s[1..]);
      forall i, j | 0 <= i < j < |s| ensures s[i] != s[j] {
        if i == 0 {
          assert s[j] == s[1..][j - 1];
        } else {
          assert s[i] == s[1..][i - 1] && s[j] == s[1..][j - 1];
        }
      }
    }
  }

  /** Rearranging a sequence keeps it free of repeats. */
  lemma DistinctPermutation<T>(a: seq<T>, b: seq<T>)
    requires Distinct(a) && multiset(a) == multiset(b)
    ensures Distinct(b)
  {
    forall x ensures multiset(b)[x] <= 1 {
      DistinctMultiplicity(a, x);
    }
    MultiplicityDistinct(b);
  }

  /** A rearrangement has the same elements. */
  lemma PermutationMembers<T>(a: seq<T>, b: seq<T>)
    requires multiset(a) == multiset(b)
    ensures forall x :: x in a <==> x in b
  {
    forall x ensures x in a <==> x in b {
      assert x in a <==> x in multiset(a);
      assert x in b <==> x in multiset(b);
    }
  }

  /** `s.lastIndexOf(x)`: -1 when absent. */
  function LastIndexOf<T(==)>(s: seq<T>, x: T): (r: int)
    ensures -1 <= r < |s|
    ensures r == -1 <==> x !in s
    ensures r >= 0 ==> s[r] == x && x !in s[r + 1..]
  {
    if s == [] then -1
    else if s[|s| - 1] == x then |s| - 1
    else
      var r := LastIndexOf(s[..|s| - 1], x);
      assert s[..|s| - 1] + [s[|s| - 1]] == s;
      assert r >= 0 ==> s[r + 1..] == s[..|s| - 1][r + 1..] + [s[|s| - 1]];
      r
  }

  // ---------------------------------------------------------------------
  // Stable sort
  // ---------------------------------------------------------------------

  /** `le(a, b)` says a may come before b: a comparator `cmp` as `cmp(a, b) <= 0`. */
  ghost predicate TotalPreorder<T(!new)>(le: (T, T) -> bool) {
    && (forall a, b :: le(a, b) || le(b, a))
    && (forall a, b, c :: le(a, b) && le(b, c) ==> le(a, c))
  }

  ghost predicate SortedBy<T>(s: seq<T>, le: (T, T) -> bool) {
    forall i, j :: 0 <= i < j < |s| ==> le(s[i], s[j])
  }

  /** An element that only itself may precede comes first in a sorted list. */
  lemma SortedLeastFirst<T>(s: seq<T>, le: (T, T) -> bool, x: T)
    requires SortedBy(s, le) && x in s
    requires forall y :: le(y, x) ==> y == x
    ensures s[0] == x
  {
    var k :| 0 <= k < |s| && s[k] == x;
    if k > 0 {
      assert le(s[0], s[k]);
    }
  }

  /** Inserts `x` after every element that may precede it. */
  function InsertBy<T>(s: seq<T>, x: T, le: (T, T) -> bool): (r: seq<T>)
    ensures multiset(r) == multiset(s) + multiset{x}
    ensures |r| == |s| + 1
  {
    if s == [] then [x]
    else if le(s[0], x) then
      assert s == [s[0]] + s[1..];
      [s[0]] + InsertBy(s[1..], x, le)
    else [x] + s
  }

  /** Insertion sort: each element goes after every earlier element it does not
      strictly precede, so elements that compare equal keep their order. */
  function SortBy<T>(s: seq<T>, le: (T, T) -> bool): (r: seq<T>)
    ensures multiset(r) == multiset(s)
    ensures |r| == |s|
  {
    if s == [] then []
    else
      var init, last := s[..|s| - 1], s[|s| - 1];
      assert s == init + [last];
      assert multiset(s) == multiset(init) + multiset{last};
      InsertBy(SortBy(init, le), last, le)
  }

  lemma {:induction false} InsertBySorted<T(!new)>(s: seq<T>, x: T, le: (T, T) -> bool)
    requires TotalPreorder(le) && SortedBy(s, le)
    ensures SortedBy(InsertBy(s, x, le), le)
    decreases |s|
  {
    if s == [] {
      return;
    }
    var r := InsertBy(s, x, le);
    var h, tail := s[0], s[1..];
    if le(h, x) {
      InsertBySorted(tail, x, le);
      var t := InsertBy(tail, x, le);
      assert r == [h] + t;
      forall y | y in tail ensures le(h, y) {
        var k :| 0 <= k < |tail| && tail[k] == y;
        assert s[k + 1] == y;
      }
      forall y | y in t ensures le(h, y) {
        assert y in multiset(tail) + multiset{x};
      }
      SortedCons(h, t, le);
    } else {
      assert le(x, h);
      assert r == [x] + s;
      forall y | y in s ensures le(x, y) {
        var k :| 0 <= k < |s| && s[k] == y;
        if k > 0 {
          assert le(h, s[k]);
        }
      }
      SortedCons(x, s, le);
    }
  }

  /** A head that may precede everything in a sorted tail gives a sorted list. */
  lemma SortedCons<T>(h: T, t: seq<T>, le: (T, T) -> bool)
    requires SortedBy(t, le) && forall y :: y in t ==> le(h, y)
    ensures SortedBy([h] + t, le)
  {
    var r := [h] + t;
    forall i, j | 0 <= i < j < |r| ensures le(r[i], r[j]) {
      assert r[j] == t[j - 1];
      if i > 0 {
        assert r[i] == t[i - 1];
      }
    }
  }

  lemma {:induction false} SortBySorted<T(!new)>(s: seq<T>, le: (T, T) -> bool)
    requires TotalPreorder(le)
    ensures SortedBy(SortBy(s, le), le)
    decreases |s|
  {
    if s != [] {
      SortBySorted(s[..|s| - 1], le);
      InsertBySorted(SortBy(s[..|s| - 1], le), s[|s| - 1], le);
    }
  }

  /** The elements of `s` that compare equal to `x`, in order. */
  function EquivalentTo<T>(s: seq<T>, x: T, le: (T, T) -> bool): seq<T> {
    if s == [] then []
    else (if le(s[0], x) && le(x, s[0]) then [s[0]] else []) + EquivalentTo(s[1..], x, le)
  }

  lemma {:induction false} EquivalentToAppend<T>(a: seq<T>, b: seq<T>, x: T, le: (T, T) -> bool)
    ensures EquivalentTo(a + b, x, le) == EquivalentTo(a, x, le) + EquivalentTo(b, x, le)
    decreases |a|
  {
    if a != [] {
      assert (a + b)[0] == a[0];
      assert (a + b)[1..] == a[1..] + b;
      EquivalentToAppend(a[1..], b, x, le);
      var head := if le(a[0], x) && le(x, a[0]) then [a[0]] else [];
      assert EquivalentTo(a + b, x, le) == head + EquivalentTo(a[1..] + b, x, le);
      assert EquivalentTo(a, x, le) == head + EquivalentTo(a[1..], x, le);
    } else {
      assert a + b == b;
    }
  }

  /** In a sorted list, nothing after an element that strictly follows `y` is
      equivalent to `y`. */
  lemma {:induction false} EquivalentToAbove<T(!new)>(s: seq<T>, x: T, y: T, le: (T, T) -> bool)
    requires TotalPreorder(le) && SortedBy(s, le)
    requires s != [] && !le(s[0], y)
    requires le(x, y) && le(y, x)
    ensures EquivalentTo(s, x, le) == []
    decreases |s|
  {
    assert !le(s[0], x);
    if |s| > 1 {
      assert le(s[0], s[1]);
      EquivalentToAbove(s[1..], x, y, le);
    }
  }

  lemma EquivalentToCons<T>(h: T, t: seq<T>, x: T, le: (T, T) -> bool)
    ensures EquivalentTo([h] + t, x, le)
            == (if le(h, x) && le(x, h) then [h] else []) + EquivalentTo(t, x, le)
  {
    assert ([h] + t)[0] == h && ([h] + t)[1..] == t;
  }

  lemma SortedTail<T>(s: seq<T>, le: (T, T) -> bool)
    requires s != [] && SortedBy(s, le)
    ensures SortedBy(s[1..], le)
  {
    forall i, j | 0 <= i < j < |s| - 1 ensures le(s[1..][i], s[1..][j]) {
      assert s[1..][i] == s[i + 1] && s[1..][j] == s[j + 1];
    }
  }

  lemma {:induction false} InsertByStable<T(!new)>(s: seq<T>, y: T, x: T, le: (T, T) -> bool)
    requires TotalPreorder(le) && SortedBy(s, le)
    ensures EquivalentTo(InsertBy(s, y, le), x, le) == EquivalentTo(s + [y], x, le)
    decreases |s|
  {
    if s == [] {
    } else if le(s[0], y) {
      var t := InsertBy(s[1..], y, le);
      SortedTail(s, le);
      InsertByStable(s[1..], y, x, le);
      assert InsertBy(s, y, le) == [s[0]] + t;
      EquivalentToCons(s[0], t, x, le);
      assert s + [y] == [s[0]] + (s[1..] + [y]);
      EquivalentToCons(s[0], s[1..] + [y], x, le);
    } else {
      assert InsertBy(s, y, le) == [y] + s;
      EquivalentToCons(y, s, x, le);
      EquivalentToAppend(s, [y], x, le);
      EquivalentToCons(y, [], x, le);
      if le(y, x) && le(x, y) {
        EquivalentToAbove(s, x, y, le);
      }
    }
  }

  /** Stability: for every `x`, the elements equivalent to `x` appear in the
      sorted list in the order they had in the input. */
  lemma {:induction false} SortByStable<T(!new)>(s: seq<T>, x: T, le: (T, T) -> bool)
    requires TotalPreorder(le)
    ensures EquivalentTo(SortBy(s, le), x, le) == EquivalentTo(s, x, le)
    decreases |s|
  {
    if s != [] {
      var init, last := s[..|s| - 1], s[|s| - 1];
      var sorted := SortBy(init, le);
      assert SortBy(s, le) == InsertBy(sorted, last, le);
      SortByStable(init, x, le);
      SortBySorted(init, le);
      InsertByStable(sorted, last, x, le);
      EquivalentToAppend(sorted, [last], x, le);
      assert s == init + [last];
      EquivalentToAppend(init, [last], x, le);
    }
  }

  /** Two sorted lists with the same elements and, for every element, the
      same order among its equivalents, are the same list: a stable sort has
      only one possible result. */
  lemma {:induction false} SortedUnique<T(!new)>(a: seq<T>, b: seq<T>, le: (T, T) -> bool)
    requires TotalPreorder(le) && SortedBy(a, le) && SortedBy(b, le)
    requires multiset(a) == multiset(b)
    requires forall x :: EquivalentTo(a, x, le) == EquivalentTo(b, x, le)
    ensures a == b
    decreases |a|
  {
    assert |a| == |multiset(a)| == |multiset(b)| == |b|;
    if a != [] {
      SortedHeads(a, b, le);
      MultisetTails(a, b);
      forall x ensures EquivalentTo(a[1..], x, le) == EquivalentTo(b[1..], x, le) {
        EquivalentToTails(a, b, x, le);
      }
      SortedTail(a, le);
      SortedTail(b, le);
      SortedUnique(a[1..], b[1..], le);
    }
  }

  /** Equal heads leave equal multisets of the tails. */
  lemma MultisetTails<T>(a: seq<T>, b: seq<T>)
    requires a != [] && b != [] && a[0] == b[0] && multiset(a) == multiset(b)
    ensures multiset(a[1..]) == multiset(b[1..])
  {
    assert a == [a[0]] + a[1..] && b == [b[0]] + b[1..];
    assert multiset(a[1..]) == multiset(a) - multiset([a[0]]);
    assert multiset(b[1..]) == multiset(b) - multiset([b[0]]);
  }

  lemma SortedHeads<T(!new)>(a: seq<T>, b: seq<T>, le: (T, T) -> bool)
    requires TotalPreorder(le) && SortedBy(a, le) && SortedBy(b, le)
    requires a != [] && multiset(a) == multiset(b)
    requires EquivalentTo(a, a[0], le) == EquivalentTo(b, a[0], le)
    ensures b != [] && a[0] == b[0]
  {
    SortedFirst(b, a[0], le);
    SortedFirst(a, b[0], le);
    SortedFirst(a, a[0], le);
    EquivalentHeads(a, b, le);
  }

  lemma EquivalentHeads<T>(a: seq<T>, b: seq<T>, le: (T, T) -> bool)
    requires a != [] && b != []
    requires le(a[0], a[0]) && le(a[0], b[0]) && le(b[0], a[0])
    requires EquivalentTo(a, a[0], le) == EquivalentTo(b, a[0], le)
    ensures a[0] == b[0]
  {
    var ea := EquivalentTo(a, a[0], le);
    var eb := EquivalentTo(b, a[0], le);
    assert ea == [a[0]] + EquivalentTo(a[1..], a[0], le);
    assert eb == [b[0]] + EquivalentTo(b[1..], a[0], le);
    assert ea[0] == a[0] && eb[0] == b[0];
  }

  /** The first element of a sorted list may precede each of its elements. */
  lemma SortedFirst<T(!new)>(s: seq<T>, x: T, le: (T, T) -> bool)
    requires TotalPreorder(le) && SortedBy(s, le) && x in multiset(s)
    ensures s != [] && le(s[0], x)
  {
    var k :| 0 <= k < |s| && s[k] == x;
    if k > 0 {
      assert le(s[0], s[k]);
    } else {
      assert le(x, x) || le(x, x);
    }
  }

  lemma EquivalentToTails<T>(a: seq<T>, b: seq<T>, x: T, le: (T, T) -> bool)
    requires a != [] && b != [] && a[0] == b[0]
    requires EquivalentTo(a, x, le) == EquivalentTo(b, x, le)
    ensures EquivalentTo(a[1..], x, le) == EquivalentTo(b[1..], x, le)
  {
    var head := if le(a[0], x) && le(x, a[0]) then [a[0]] else [];
    assert EquivalentTo(a[1..], x, le) == EquivalentTo(a, x, le)[|head|..];
    assert EquivalentTo(b[1..], x, le) == EquivalentTo(b, x, le)[|head|..];
  }

  lemma {:induction false} FilterAppend<T(!new)>(a: seq<T>, b: seq<T>, p: T -> bool)
    ensures Filter(a + b, p) == Filter(a, p) + Filter(b, p)
    decreases |a|
  {
    if a == [] {
      assert a + b == b;
    } else {
      assert (a + b)[0] == a[0] && (a + b)[1..] == a[1..] + b;
      FilterAppend(a[1..], b, p);
    }
  }

  /** Filtering by two tests that agree on the list gives the same list. */
  lemma {:induction false} FilterExt<T(!new)>(s: seq<T>, p: T -> bool, q: T -> bool)
    requires forall x :: x in s ==> p(x) == q(x)
    ensures Filter(s, p) == Filter(s, q)
    decreases |s|
  {
    if s != [] {
      assert forall x :: x in s[1..] ==> x in s;
      FilterExt(s[1..], p, q);
    }
  }

  /** The test that holds where `p` does not. */
  function Negated<T>(p: T -> bool): T -> bool {
    x => !p(x)
  }

  /** A list is split by a test into the elements that pass and those that fail. */
  lemma {:induction false} FilterSplit<T(!new)>(s: seq<T>, p: T -> bool)
    ensures multiset(Filter(s, p)) + multiset(Filter(s, Negated(p))) == multiset(s)
    decreases |s|
  {
    if s != [] {
      FilterSplit(s[1..], p);
      assert s == [s[0]] + s[1..];
    }
  }

  function EquivalenceTest<T>(x: T, le: (T, T) -> bool): T -> bool {
    y => le(y, x) && le(x, y)
  }

  /** The equivalents of `x` are the list filtered by equivalence to `x`. */
  lemma {:induction false} EquivalentToFilter<T(!new)>(s: seq<T>, x: T, le: (T, T) -> bool)
    ensures EquivalentTo(s, x, le) == Filter(s, EquivalenceTest(x, le))
    decreases |s|
  {
    if s != [] {
      EquivalentToFilter(s[1..], x, le);
    }
  }

  /** In a list without repeats, filtering by a test that holds for `w`
      alone leaves just `w`. */
  lemma {:induction false} FilterSingle<T(!new)>(s: seq<T>, q: T -> bool, w: T)
    requires Distinct(s) && w in s
    requires forall y :: y in s ==> (q(y) <==> y == w)
    ensures Filter(s, q) == [w]
    decreases |s|
  {
    assert Distinct(s[1..]) by {
      forall i, j | 0 <= i < j < |s| - 1 ensures s[1..][i] != s[1..][j] {
        assert s[i + 1] != s[j + 1];
      }
    }
    assert forall y :: y in s[1..] ==> y in s;
    if s[0] == w {
      assert w !in s[1..] by {
        forall i | 0 <= i < |s| - 1 ensures s[1..][i] != w {
          assert s[0] != s[i + 1];
        }
      }
      FilterNone(s[1..], q);
    } else {
      FilterSingle(s[1..], q, w);
    }
  }

  /** A list without repeats keeps that property in any part of it chosen
      by a test. */
  lemma FilterDistinct<T(!new)>(s: seq<T>, p: T -> bool)
    requires Distinct(s)
    ensures Distinct(Filter(s, p))
  {
    var f := Filter(s, p);
    FilterSplit(s, p);
    forall x ensures multiset(f)[x] <= 1 {
      DistinctMultiplicity(s, x);
    }
    MultiplicityDistinct(f);
  }

  lemma {:induction false} FilterNone<T(!new)>(s: seq<T>, q: T -> bool)
    requires forall y :: y in s ==> !q(y)
    ensures Filter(s, q) == []
    decreases |s|
  {
    if s != [] {
      assert forall y :: y in s[1..] ==> y in s;
      FilterNone(s[1..], q);
    }
  }
}
