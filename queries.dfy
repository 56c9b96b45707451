/**
 * The repository's queries, as functions over the rows of the
 * `translations` table in the order the database scans them. Each row
 * carries the names of its tags, which is all the queries look at.
 */
module Queries {
  import opened Wrappers
  import opened Text
  import opened Entities
  import Sets

  /** No element occurs twice. */
  predicate NoDuplicates<T(==)>(s: seq<T>)
  {
    forall i, j | 0 <= i < j < |s| :: s[i] != s[j]
  }

  /** The rows that satisfy `p`, in scan order. */
  function Filter(rows: seq<TranslationRecord>, p: TranslationRecord -> bool): (r: seq<TranslationRecord>)
    ensures |r| <= |rows|
    ensures forall x :: x in r <==> x in rows && p(x)
    ensures NoDuplicates(rows) ==> NoDuplicates(r)
  {
    if rows == [] then []
    else
      var rest := Filter(rows[1..], p);
      assert forall x :: x in rows <==> x == rows[0] || x in rows[1..];
      if p(rows[0]) then [rows[0]] + rest else rest
  }

  /** `s` with every occurrence of `x` removed. */
  function Without<T(==,!new)>(s: seq<T>, x: T): (r: seq<T>)
    ensures |r| <= |s|
    ensures forall y :: y in r <==> y in s && y != x
    ensures x !in s ==> r == s
  {
    if s == [] then []
    else
      var rest := Without(s[1..], x);
      assert s == [s[0]] + s[1..];
      if s[0] == x then rest else [s[0]] + rest
  }

  /** SQL `DISTINCT`: the first occurrence of each element, in order. */
  function Distinct<T(==,!new)>(s: seq<T>): (r: seq<T>)
    ensures forall y :: y in r <==> y in s
    ensures NoDuplicates(r)
    decreases |s|
  {
    if s == [] then []
    else
      var rest := Distinct(Without(s[1..], s[0]));
      assert forall y :: y in s <==> y == s[0] || y in s[1..];
      [s[0]] + rest
  }

  /** `n` copies of `x`. */
  function Repeat<T>(x: T, n: nat): (r: seq<T>)
    ensures |r| == n && forall y :: y in r ==> y == x
  {
    if n == 0 then [] else [x] + Repeat(x, n - 1)
  }

  /** How many rows `JOIN t.tags tag WHERE p(t, tag.name)` yields for the row `x`. */
  function JoinCount(x: TranslationRecord, p: (TranslationRecord, string) -> bool): nat
  {
    |set g | g in x.tags && p(x, g)|
  }

  /** Some tag of `x` passes `p`. */
  ghost predicate HasMatchingTag(x: TranslationRecord, p: (TranslationRecord, string) -> bool)
  {
    exists g :: g in x.tags && p(x, g)
  }

  lemma JoinCountPositive(x: TranslationRecord, p: (TranslationRecord, string) -> bool)
    ensures JoinCount(x, p) > 0 <==> HasMatchingTag(x, p)
  {
    var gs := set g | g in x.tags && p(x, g);
    if |gs| > 0 {
      var g := Sets.Pick(gs);
      assert g in x.tags && p(x, g);
    }
    if HasMatchingTag(x, p) {
      var g :| g in x.tags && p(x, g);
      assert g in gs;
    }
  }

  /**
   * The inner join of the rows with their tags, filtered by `p`: each row
   * appears once per tag that passes, so a row without tags never appears.
   */
  function Joined(rows: seq<TranslationRecord>, p: (TranslationRecord, string) -> bool): (r: seq<TranslationRecord>)
  {
    if rows == [] then []
    else Repeat(rows[0], JoinCount(rows[0], p)) + Joined(rows[1..], p)
  }

  lemma {:induction false} JoinedMembers(rows: seq<TranslationRecord>, p: (TranslationRecord, string) -> bool)
    ensures forall x :: x in Joined(rows, p) <==> x in rows && HasMatchingTag(x, p)
  {
    if rows != [] {
      JoinedMembers(rows[1..], p);
      JoinCountPositive(rows[0], p);
      var head := Repeat(rows[0], JoinCount(rows[0], p));
      assert JoinCount(rows[0], p) > 0 ==> rows[0] in head by {
        if JoinCount(rows[0], p) > 0 {
          assert head[0] == rows[0];
        }
      }
      assert forall x :: x in rows <==> x == rows[0] || x in rows[1..];
    }
  }

  /** `SELECT DISTINCT t ... JOIN t.tags tag WHERE p(t, tag.name)`. */
  function DistinctJoin(rows: seq<TranslationRecord>, p: (TranslationRecord, string) -> bool): (r: seq<TranslationRecord>)
    ensures NoDuplicates(r)
  {
    Distinct(Joined(rows, p))
  }

  /** A row is returned exactly when it is in the table and one of its tags passes. */
  lemma DistinctJoinMembers(rows: seq<TranslationRecord>, p: (TranslationRecord, string) -> bool)
    ensures forall x :: x in DistinctJoin(rows, p) <==> x in rows && HasMatchingTag(x, p)
  {
    JoinedMembers(rows, p);
  }

  /** The semi-join condition: the row has a tag that passes `p`. */
  ghost function SemiJoin(p: (TranslationRecord, string) -> bool): TranslationRecord -> bool
  {
    x => HasMatchingTag(x, p)
  }

  /** Removing a value that the join does not produce from the join leaves it alone. */
  lemma {:induction false} RepeatWithout<T(!new)>(x: T, n: nat, rest: seq<T>)
    requires x !in rest
    ensures Without(Repeat(x, n) + rest, x) == rest
  {
    if n > 0 {
      assert Repeat(x, n) + rest == [x] + (Repeat(x, n - 1) + rest);
      RepeatWithout(x, n - 1, rest);
    }
  }

  /** A first row with a passing tag heads the distinct join once. */
  lemma DistinctJoinKeeps(rows: seq<TranslationRecord>, p: (TranslationRecord, string) -> bool)
    requires rows != [] && rows[0] !in rows[1..] && HasMatchingTag(rows[0], p)
    ensures DistinctJoin(rows, p) == [rows[0]] + DistinctJoin(rows[1..], p)
  {
    var x := rows[0];
    var rest := Joined(rows[1..], p);
    JoinedMembers(rows[1..], p);
    JoinCountPositive(x, p);
    var n := JoinCount(x, p);
    var t := Repeat(x, n - 1) + rest;
    RepeatWithout(x, n - 1, rest);
    assert Joined(rows, p) == [x] + t;
    assert ([x] + t)[1..] == t;
  }

  /** A first row without a passing tag does not appear in the join. */
  lemma DistinctJoinSkips(rows: seq<TranslationRecord>, p: (TranslationRecord, string) -> bool)
    requires rows != [] && !HasMatchingTag(rows[0], p)
    ensures DistinctJoin(rows, p) == DistinctJoin(rows[1..], p)
  {
    JoinCountPositive(rows[0], p);
    assert Joined(rows, p) == Joined(rows[1..], p);
  }

  /**
   * On a table without duplicate rows, `DISTINCT` over the join is the
   * semi-join: the rows with a passing tag, in scan order.
   */
  lemma {:induction false} DistinctJoinIsFilter(rows: seq<TranslationRecord>, p: (TranslationRecord, string) -> bool)
    requires NoDuplicates(rows)
    ensures DistinctJoin(rows, p) == Filter(rows, SemiJoin(p))
  {
    if rows != [] {
      var tail := rows[1..];
      assert NoDuplicates(tail);
      DistinctJoinIsFilter(tail, p);
      if HasMatchingTag(rows[0], p) {
        assert rows[0] !in tail;
        DistinctJoinKeeps(rows, p);
        assert SemiJoin(p)(rows[0]);
      } else {
        DistinctJoinSkips(rows, p);
        assert !SemiJoin(p)(rows[0]);
      }
    }
  }

  /** `LIKE %f%` with the parameter bound: substring containment. */
  predicate Like(s: string, f: string)
  {
    Contains(s, f)
  }

  /** `(:f IS NULL OR s LIKE %:f%)`. */
  predicate OptLike(s: string, f: Option<string>)
  {
    f.None? || Like(s, f.value)
  }

  /** `(:f IS NULL OR s = :f)`. */
  predicate OptEquals(s: string, f: Option<string>)
  {
    f.None? || s == f.value
  }

  /** The conditions of `searchTranslations` on one joined (row, tag name) pair. */
  predicate SearchCondition(
    key: Option<string>, content: Option<string>, locale: Option<string>, tagName: Option<string>,
    x: TranslationRecord, g: string)
  {
    OptLike(x.key, key) && OptLike(x.content, content) && OptEquals(x.locale, locale) && OptEquals(g, tagName)
  }

  /** `searchTranslations`, before paging. */
  function SearchTranslations(
    rows: seq<TranslationRecord>,
    key: Option<string>, content: Option<string>, locale: Option<string>, tagName: Option<string>
  ): (r: seq<TranslationRecord>)
    ensures NoDuplicates(r)
  {
    DistinctJoin(rows, (x, g) => SearchCondition(key, content, locale, tagName, x, g))
  }

  /**
   * A row is found exactly when every given filter holds: the key and the
   * content contain the given text, the locale is the given one, and
   * some tag of the row has the given name.
   */
  lemma SearchMembers(
    rows: seq<TranslationRecord>,
    key: Option<string>, content: Option<string>, locale: Option<string>, tagName: Option<string>,
    x: TranslationRecord)
    ensures x in SearchTranslations(rows, key, content, locale, tagName) <==>
      && x in rows
      && OptLike(x.key, key) && OptLike(x.content, content) && OptEquals(x.locale, locale)
      && (exists g :: g in x.tags && OptEquals(g, tagName))
  {
    var p := (y, g) => SearchCondition(key, content, locale, tagName, y, g);
    DistinctJoinMembers(rows, p);
    if exists g :: g in x.tags && OptEquals(g, tagName) {
      var g :| g in x.tags && OptEquals(g, tagName);
      if OptLike(x.key, key) && OptLike(x.content, content) && OptEquals(x.locale, locale) {
        assert p(x, g);
      }
    }
  }

  /** The inner join drops untagged rows, whatever the filters. */
  lemma UntaggedNeverFound(
    rows: seq<TranslationRecord>,
    key: Option<string>, content: Option<string>, locale: Option<string>, tagName: Option<string>,
    x: TranslationRecord)
    requires x.tags == {}
    ensures x !in SearchTranslations(rows, key, content, locale, tagName)
  {
    SearchMembers(rows, key, content, locale, tagName, x);
  }

  /** With no filter at all the search returns exactly the tagged rows. */
  lemma NoFilterFindsTagged(rows: seq<TranslationRecord>, x: TranslationRecord)
    ensures x in SearchTranslations(rows, None, None, None, None) <==> x in rows && x.tags != {}
  {
    SearchMembers(rows, None, None, None, None, x);
    if x.tags != {} {
      var g := Sets.Pick(x.tags);
      assert OptEquals(g, None);
    }
  }

  /** `findByTagNames`, before paging: `tag.name IN :tagNames`. */
  function FindByTagNames(rows: seq<TranslationRecord>, tagNames: seq<string>): (r: seq<TranslationRecord>)
    ensures NoDuplicates(r)
  {
    DistinctJoin(rows, (x, g) => g in tagNames)
  }

  /** A row is found exactly when one of its tag names is listed. */
  lemma FindByTagNamesMembers(rows: seq<TranslationRecord>, tagNames: seq<string>, x: TranslationRecord)
    ensures x in FindByTagNames(rows, tagNames) <==> x in rows && exists g :: g in x.tags && g in tagNames
  {
    DistinctJoinMembers(rows, (y, g) => g in tagNames);
  }

  /**
   * `s LIKE %:f%` where the parameter may be null: comparing with null
   * is unknown, which `WHERE` treats as false.
   */
  predicate NullableLike(s: string, f: Option<string>)
  {
    f.Some? && Like(s, f.value)
  }

  /** `searchByKeyOrContent`, before paging. */
  function SearchByKeyOrContent(rows: seq<TranslationRecord>, key: Option<string>, content: Option<string>): (r: seq<TranslationRecord>)
    ensures forall x :: x in r <==> x in rows && (NullableLike(x.key, key) || NullableLike(x.content, content))
    ensures NoDuplicates(rows) ==> NoDuplicates(r)
  {
    Filter(rows, (x: TranslationRecord) => NullableLike(x.key, key) || NullableLike(x.content, content))
  }

  /** `countAll`. */
  function CountAll(rows: seq<TranslationRecord>): (n: nat)
    ensures n == |rows|
  {
    if rows == [] then 0 else 1 + CountAll(rows[1..])
  }

  /** The rows with that key and that locale. */
  function KeyLocaleMatches(rows: seq<TranslationRecord>, key: string, locale: string): (r: seq<TranslationRecord>)
    ensures forall x :: x in r <==> x in rows && x.key == key && x.locale == locale
    ensures NoDuplicates(rows) ==> NoDuplicates(r)
  {
    Filter(rows, (x: TranslationRecord) => x.key == key && x.locale == locale)
  }

  /**
   * A stand-in for the message of the exception a single-result query
   * raises when it finds several rows; the real message also gives the
   * number of rows found.
   */
  const NON_UNIQUE_RESULT: string := "query did not return a unique result"

  /**
   * `findByKeyAndLocale`: a derived query returning `Optional`, empty when
   * no row matches and failing when more than one does.
   */
  function FindByKeyAndLocale(rows: seq<TranslationRecord>, key: string, locale: string): (r: Result<Option<TranslationRecord>, string>)
    ensures r == Ok(None) <==> forall x | x in rows :: !(x.key == key && x.locale == locale)
    ensures r.Ok? && r.value.Some? ==> r.value.value in rows && r.value.value.key == key && r.value.value.locale == locale
    ensures r.Err? ==> r.error == NON_UNIQUE_RESULT
  {
    var m := KeyLocaleMatches(rows, key, locale);
    if |m| == 0 then Ok(None)
    else
      assert m[0] in m;
      if |m| == 1 then Ok(Some(m[0])) else Err(NON_UNIQUE_RESULT)
  }

  /**
   * Nothing stops two rows from sharing a key and a locale, and once they
   * do the lookup by key and locale fails.
   */
  lemma SharedKeyLocaleFails(rows: seq<TranslationRecord>, i: nat, j: nat)
    requires NoDuplicates(rows) && i < j < |rows|
    requires rows[i].key == rows[j].key && rows[i].locale == rows[j].locale
    ensures FindByKeyAndLocale(rows, rows[i].key, rows[i].locale).Err?
  {
    var m := KeyLocaleMatches(rows, rows[i].key, rows[i].locale);
    assert rows[i] in m && rows[j] in m && rows[i] != rows[j];
  }

  /** Ascending by key, as `ORDER BY t.key` leaves them. */
  predicate SortedByKey(rows: seq<TranslationRecord>)
  {
    forall i, j | 0 <= i < j < |rows| :: LessEq(rows[i].key, rows[j].key)
  }

  /** A row no greater than the first of a sorted sequence can go in front. */
  lemma SortedPrepend(x: TranslationRecord, rows: seq<TranslationRecord>)
    requires SortedByKey(rows) && (rows != [] ==> LessEq(x.key, rows[0].key))
    ensures SortedByKey([x] + rows)
  {
    forall j | 0 <= j < |rows|
      ensures LessEq(x.key, rows[j].key)
    {
      LessEqTransitive(x.key, rows[0].key, rows[j].key);
    }
    var t := [x] + rows;
    forall i, j | 0 <= i < j < |t|
      ensures LessEq(t[i].key, t[j].key)
    {
      assert t[j] == rows[j - 1];
      if i > 0 {
        assert t[i] == rows[i - 1];
      }
    }
  }

  /**
   * Inserting a row greater than the first of a sorted sequence into its
   * tail keeps the first in front.
   */
  lemma InsertBehind(x: TranslationRecord, rows: seq<TranslationRecord>, rest: seq<TranslationRecord>)
    requires SortedByKey(rows) && rows != [] && !LessEq(x.key, rows[0].key)
    requires SortedByKey(rest) && multiset(rest) == multiset(rows[1..]) + multiset{x}
    ensures SortedByKey([rows[0]] + rest)
  {
    LessTotal(x.key, rows[0].key);
    forall j | 0 <= j < |rest|
      ensures LessEq(rows[0].key, rest[j].key)
    {
      assert rest[j] in multiset(rest);
      if rest[j] != x {
        assert rest[j] in rows[1..];
        var i :| 0 <= i < |rows[1..]| && rows[1..][i] == rest[j];
        assert rows[i + 1] == rest[j];
      }
    }
    SortedPrepend(rows[0], rest);
  }

  /** Puts `x` in front of the first row whose key is not smaller. */
  function InsertByKey(x: TranslationRecord, rows: seq<TranslationRecord>): (r: seq<TranslationRecord>)
    requires SortedByKey(rows)
    ensures SortedByKey(r)
    ensures multiset(r) == multiset(rows) + multiset{x}
  {
    if rows == [] then [x]
    else if LessEq(x.key, rows[0].key) then
      SortedPrepend(x, rows);
      [x] + rows
    else
      var rest := InsertByKey(x, rows[1..]);
      InsertBehind(x, rows, rest);
      assert rows == [rows[0]] + rows[1..];
      [rows[0]] + rest
  }

  /** Insertion sort by key. */
  function SortByKey(rows: seq<TranslationRecord>): (r: seq<TranslationRecord>)
    ensures SortedByKey(r)
    ensures multiset(r) == multiset(rows)
  {
    if rows == [] then []
    else
      assert rows == [rows[0]] + rows[1..];
      InsertByKey(rows[0], SortByKey(rows[1..]))
  }

  /** `findByLocale`: the rows of one locale, in scan order. */
  function FindByLocale(rows: seq<TranslationRecord>, locale: string): (r: seq<TranslationRecord>)
    ensures forall x :: x in r <==> x in rows && x.locale == locale
    ensures NoDuplicates(rows) ==> NoDuplicates(r)
  {
    Filter(rows, (x: TranslationRecord) => x.locale == locale)
  }

  /** `findByLocaleOrderByKey`: the same rows, ordered by key. */
  function FindByLocaleOrderByKey(rows: seq<TranslationRecord>, locale: string): (r: seq<TranslationRecord>)
    ensures SortedByKey(r)
    ensures forall x :: x in r <==> x in rows && x.locale == locale
    ensures multiset(r) == multiset(FindByLocale(rows, locale))
  {
    var matching := FindByLocale(rows, locale);
    var r := SortByKey(matching);
    assert forall x :: x in r <==> x in multiset(matching);
    r
  }

  /** Strictly ascending: sorted with no duplicates. */
  predicate StrictlyAscending(s: seq<string>)
  {
    forall i, j | 0 <= i < j < |s| :: Less(s[i], s[j])
  }

  /** Adds `l` to an ascending list unless it is already there. */
  function InsertLocale(l: string, s: seq<string>): (r: seq<string>)
    requires StrictlyAscending(s)
    ensures StrictlyAscending(r)
    ensures forall m :: m in r <==> m == l || m in s
  {
    if s == [] then [l]
    else if l == s[0] then s
    else if Less(l, s[0]) then
      forall j | 0 <= j < |s|
        ensures Less(l, s[j])
      {
        if j > 0 {
          LessTransitive(l, s[0], s[j]);
        }
      }
      [l] + s
    else
      LessTotal(l, s[0]);
      var rest := InsertLocale(l, s[1..]);
      assert forall m :: m in s <==> m == s[0] || m in s[1..];
      forall j | 0 <= j < |rest|
        ensures Less(s[0], rest[j])
      {
        assert rest[j] in rest;
        if rest[j] != l {
          var k :| 0 <= k < |s[1..]| && s[1..][k] == rest[j];
          assert s[k + 1] == rest[j];
        }
      }
      [s[0]] + rest
  }

  /** The locales of the rows, in scan order. */
  function LocalesOf(rows: seq<TranslationRecord>): (r: seq<string>)
    ensures |r| == |rows| && forall i | 0 <= i < |rows| :: r[i] == rows[i].locale
  {
    if rows == [] then [] else [rows[0].locale] + LocalesOf(rows[1..])
  }

  /** `findDistinctLocales`: `SELECT DISTINCT t.locale ... ORDER BY t.locale`. */
  function FindDistinctLocales(rows: seq<TranslationRecord>): (r: seq<string>)
    ensures StrictlyAscending(r)
  {
    if rows == [] then [] else InsertLocale(rows[0].locale, FindDistinctLocales(rows[1..]))
  }

  /** Each locale present in the table is listed, and nothing else. */
  lemma {:induction false} DistinctLocalesMembers(rows: seq<TranslationRecord>)
    ensures forall l :: l in FindDistinctLocales(rows) <==> l in LocalesOf(rows)
  {
    if rows != [] {
      DistinctLocalesMembers(rows[1..]);
      assert LocalesOf(rows) == [rows[0].locale] + LocalesOf(rows[1..]);
    }
  }

  /** An ascending list has no duplicates, so each locale is listed once. */
  lemma DistinctLocalesOnce(rows: seq<TranslationRecord>)
    ensures NoDuplicates(FindDistinctLocales(rows))
  {
    var s := FindDistinctLocales(rows);
    forall i, j | 0 <= i < j < |s|
      ensures s[i] != s[j]
    {
      LessAsymmetric(s[i], s[j]);
    }
  }

  /** The keys of the rows, in order. */
  function KeysOf(rows: seq<TranslationRecord>): (r: seq<string>)
    ensures |r| == |rows| && forall i | 0 <= i < |rows| :: r[i] == rows[i].key
  {
    if rows == [] then [] else [rows[0].key] + KeysOf(rows[1..])
  }

  /** The content of the first row with key `k`. */
  function FirstContent(rows: seq<TranslationRecord>, k: string): (c: string)
    requires k in KeysOf(rows)
    ensures exists i | 0 <= i < |rows| ::
      rows[i].key == k && rows[i].content == c && forall j | 0 <= j < i :: rows[j].key != k
  {
    if rows[0].key == k then
      rows[0].content
    else
      assert KeysOf(rows) == [rows[0].key] + KeysOf(rows[1..]);
      var c := FirstContent(rows[1..], k);
      var i :| 0 <= i < |rows| - 1 &&
        rows[1..][i].key == k && rows[1..][i].content == c && forall j | 0 <= j < i :: rows[1..][j].key != k;
      assert rows[i + 1].key == k && rows[i + 1].content == c;
      assert forall j | 0 <= j < i + 1 :: rows[j].key != k by {
        forall j | 0 <= j < i + 1
          ensures rows[j].key != k
        {
          if j > 0 {
            assert rows[j] == rows[1..][j - 1];
          }
        }
      }
      c
  }

  /** A key-to-content entry of an insertion-ordered map. */
  type Entry = (string, string)

  /** The keys of entries, in order. */
  function EntryKeys(e: seq<Entry>): (r: seq<string>)
    ensures |r| == |e| && forall i | 0 <= i < |e| :: r[i] == e[i].0
  {
    if e == [] then [] else [e[0].0] + EntryKeys(e[1..])
  }

  /** The entries other than the one for `k`. */
  function WithoutKey(e: seq<Entry>, k: string): (r: seq<Entry>)
    ensures forall x :: x in r <==> x in e && x.0 != k
  {
    if e == [] then []
    else
      assert forall x :: x in e <==> x == e[0] || x in e[1..];
      if e[0].0 == k then WithoutKey(e[1..], k)
      else [e[0]] + WithoutKey(e[1..], k)
  }

  /** Dropping an entry drops exactly its key. */
  lemma {:induction false} WithoutKeyKeys(e: seq<Entry>, k: string)
    ensures forall j :: j in EntryKeys(WithoutKey(e, k)) <==> j in EntryKeys(e) && j != k
  {
    if e != [] {
      WithoutKeyKeys(e[1..], k);
      assert EntryKeys(e) == [e[0].0] + EntryKeys(e[1..]);
      if e[0].0 != k {
        var rest := WithoutKey(e[1..], k);
        assert EntryKeys([e[0]] + rest) == [e[0].0] + EntryKeys(rest);
      }
    }
  }

  /** A new element in front of a sequence without duplicates keeps it so. */
  lemma PrependUnique<T>(a: T, s: seq<T>)
    requires a !in s && NoDuplicates(s)
    ensures NoDuplicates([a] + s)
  {
    var t := [a] + s;
    forall i, j | 0 <= i < j < |t|
      ensures t[i] != t[j]
    {
      assert t[j] == s[j - 1];
      if i > 0 {
        assert t[i] == s[i - 1];
      }
    }
  }

  /** Dropping an entry keeps the keys unique. */
  lemma {:induction false} WithoutKeyUnique(e: seq<Entry>, k: string)
    requires NoDuplicates(EntryKeys(e))
    ensures NoDuplicates(EntryKeys(WithoutKey(e, k)))
  {
    if e != [] {
      var keys := EntryKeys(e);
      var tail := EntryKeys(e[1..]);
      assert keys == [e[0].0] + tail;
      assert NoDuplicates(tail) by {
        forall i, j | 0 <= i < j < |tail|
          ensures tail[i] != tail[j]
        {
          assert tail[i] == keys[i + 1] && tail[j] == keys[j + 1];
        }
      }
      WithoutKeyUnique(e[1..], k);
      if e[0].0 != k {
        var rest := WithoutKey(e[1..], k);
        WithoutKeyKeys(e[1..], k);
        assert e[0].0 !in tail;
        assert EntryKeys([e[0]] + rest) == [e[0].0] + EntryKeys(rest);
        PrependUnique(e[0].0, EntryKeys(rest));
      }
    }
  }

  /**
   * `Collectors.toMap(getKey, getContent, (existing, replacement) -> existing, LinkedHashMap::new)`:
   * one entry per key, in order of first appearance, holding the first content.
   */
  function Export(rows: seq<TranslationRecord>): (r: seq<Entry>)
    ensures r == [] <==> rows == []
    ensures rows != [] ==> r[0] == (rows[0].key, rows[0].content)
  {
    if rows == [] then []
    else [(rows[0].key, rows[0].content)] + WithoutKey(Export(rows[1..]), rows[0].key)
  }

  /** The export has exactly the keys of the rows, none of them twice. */
  lemma {:induction false} ExportKeys(rows: seq<TranslationRecord>)
    ensures NoDuplicates(EntryKeys(Export(rows)))
    ensures forall k :: k in EntryKeys(Export(rows)) <==> k in KeysOf(rows)
  {
    if rows != [] {
      ExportKeys(rows[1..]);
      WithoutKeyKeys(Export(rows[1..]), rows[0].key);
      WithoutKeyUnique(Export(rows[1..]), rows[0].key);
      var w := WithoutKey(Export(rows[1..]), rows[0].key);
      assert KeysOf(rows) == [rows[0].key] + KeysOf(rows[1..]);
      assert EntryKeys(Export(rows)) == [rows[0].key] + EntryKeys(w);
    }
  }

  /** Each entry of the export holds the content of the first row with its key. */
  lemma {:induction false} ExportFirstWins(rows: seq<TranslationRecord>)
    ensures forall x | x in Export(rows) :: x.0 in KeysOf(rows) && x.1 == FirstContent(rows, x.0)
  {
    if rows != [] {
      ExportFirstWins(rows[1..]);
      var k0 := rows[0].key;
      var w := WithoutKey(Export(rows[1..]), k0);
      assert KeysOf(rows) == [k0] + KeysOf(rows[1..]);
      forall x | x in Export(rows)
        ensures x.0 in KeysOf(rows) && x.1 == FirstContent(rows, x.0)
      {
        if x != (k0, rows[0].content) {
          assert x in w;
        }
      }
    }
  }

  /** Dropping an entry keeps the remaining keys in order. */
  lemma {:induction false} WithoutKeyAscending(e: seq<Entry>, k: string)
    requires StrictlyAscending(EntryKeys(e))
    ensures StrictlyAscending(EntryKeys(WithoutKey(e, k)))
  {
    if e != [] {
      var tail := e[1..];
      assert EntryKeys(e) == [e[0].0] + EntryKeys(tail);
      assert StrictlyAscending(EntryKeys(tail)) by {
        forall i, j | 0 <= i < j < |tail|
          ensures Less(EntryKeys(tail)[i], EntryKeys(tail)[j])
        {
          assert EntryKeys(tail)[i] == EntryKeys(e)[i + 1] && EntryKeys(tail)[j] == EntryKeys(e)[j + 1];
        }
      }
      WithoutKeyAscending(tail, k);
      WithoutKeyKeys(tail, k);
      if e[0].0 != k {
        var rest := WithoutKey(tail, k);
        forall y | y in EntryKeys(rest)
          ensures Less(e[0].0, y)
        {
          var i :| 0 <= i < |EntryKeys(tail)| && EntryKeys(tail)[i] == y;
          assert EntryKeys(e)[i + 1] == y;
        }
        PrependAscending(e[0], rest);
      }
    }
  }

  /** An entry whose key is below every other key can go in front. */
  lemma PrependAscending(x: Entry, rest: seq<Entry>)
    requires StrictlyAscending(EntryKeys(rest))
    requires forall y | y in EntryKeys(rest) :: Less(x.0, y)
    ensures StrictlyAscending(EntryKeys([x] + rest))
  {
    var s := EntryKeys([x] + rest);
    forall i, j | 0 <= i < j < |s|
      ensures Less(s[i], s[j])
    {
      assert s[j] == EntryKeys(rest)[j - 1];
      if i > 0 {
        assert s[i] == EntryKeys(rest)[i - 1];
      } else {
        assert EntryKeys(rest)[j - 1] in EntryKeys(rest);
      }
    }
  }

  /** Exported from rows sorted by key, the entries come in strictly ascending key order. */
  lemma {:induction false} ExportAscending(rows: seq<TranslationRecord>)
    requires SortedByKey(rows)
    ensures StrictlyAscending(EntryKeys(Export(rows)))
  {
    if rows != [] {
      var tail := rows[1..];
      assert SortedByKey(tail);
      ExportAscending(tail);
      ExportKeys(tail);
      var k0 := rows[0].key;
      WithoutKeyKeys(Export(tail), k0);
      var w := WithoutKey(Export(tail), k0);
      WithoutKeyAscending(Export(tail), k0);
      forall y | y in EntryKeys(w)
        ensures Less(k0, y)
      {
        var i :| 0 <= i < |KeysOf(tail)| && KeysOf(tail)[i] == y;
        assert LessEq(rows[0].key, rows[i + 1].key);
      }
      PrependAscending((k0, rows[0].content), w);
    }
  }

  /** `Page<T>`: one slice of the results with the totals of all pages. */
  datatype Page<T> = Page(content: seq<T>, totalElements: nat, totalPages: nat, number: nat)

  /** The number of pages of `size` needed for `n` elements. */
  function PageCount(n: nat, size: nat): (c: nat)
    requires size > 0
    ensures c * size >= n && (c > 0 ==> (c - 1) * size < n)
  {
    (n + size - 1) / size
  }

  /** `PageRequest.of(page, size)` applied to the whole result. */
  function Paginate<T>(all: seq<T>, page: nat, size: nat): (p: Page<T>)
    requires size > 0
    ensures |p.content| <= size && p.totalElements == |all| && p.number == page
    ensures p.totalPages == PageCount(|all|, size)
    ensures forall j | 0 <= j < |p.content| :: page * size + j < |all| && p.content[j] == all[page * size + j]
    ensures |p.content| == size || page * size + |p.content| >= |all|
  {
    var lo := if page * size <= |all| then page * size else |all|;
    var hi := if lo + size <= |all| then lo + size else |all|;
    Page(all[lo..hi], |all|, PageCount(|all|, size), page)
  }

  lemma MulMonotone(a: nat, b: nat, size: nat)
    requires a <= b
    ensures a * size <= b * size
  {
  }

  /** Every result sits on exactly one page, at the expected position, and that page exists. */
  lemma PagesCover<T>(all: seq<T>, size: nat, i: nat)
    requires size > 0 && i < |all|
    ensures i / size < PageCount(|all|, size)
    ensures var p := Paginate(all, i / size, size);
      i % size < |p.content| && p.content[i % size] == all[i]
  {
    var q := i / size;
    var m := i % size;
    assert i == q * size + m && 0 <= m < size;
    var c := PageCount(|all|, size);
    if c <= q {
      MulMonotone(c, q, size);
    }
  }

  /** Pages past the last one are empty. */
  lemma PastLastPageEmpty<T>(all: seq<T>, size: nat, page: nat)
    requires size > 0 && page >= PageCount(|all|, size)
    ensures Paginate(all, page, size).content == []
  {
    MulMonotone(PageCount(|all|, size), page, size);
  }
}
