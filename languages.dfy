/** The translation-language table of the store and `get_language_keys`, which
    lists its display names with English first and the others in Python's
    string order. */
module Languages {

  /** `lang_dict`: display name to translator code, in insertion order. */
  const LangDict: seq<(string, string)> := [
    ("English", "en"), ("Arabic", "ar"), ("Bengali", "bn"),
    ("Chinese (Simplified)", "zh-cn"), ("French", "fr"), ("German", "de"),
    ("Gujarati", "gu"), ("Hindi", "hi"), ("Japanese", "ja"), ("Kannada", "kn"),
    ("Malayalam", "ml"), ("Marathi", "mr"), ("Punjabi", "pa"), ("Russian", "ru"),
    ("Spanish", "es"), ("Tamil", "ta"), ("Telugu", "te"), ("Urdu", "ur")
  ]

  /** Python's `<=` on `str`: lexicographic by code point, a prefix first. */
  predicate StrLessEq(a: string, b: string) {
    a == [] || (b != [] && (a[0] < b[0] || (a[0] == b[0] && StrLessEq(a[1..], b[1..]))))
  }

  lemma {:induction false} StrLessEqTotal(a: string, b: string)
    ensures StrLessEq(a, b) || StrLessEq(b, a)
  {
    if a != [] && b != [] && a[0] == b[0] {
      StrLessEqTotal(a[1..], b[1..]);
    }
  }

  lemma {:induction false} StrLessEqTransitive(a: string, b: string, c: string)
    requires StrLessEq(a, b) && StrLessEq(b, c)
    ensures StrLessEq(a, c)
  {
    if a != [] && a[0] == b[0] && b[0] == c[0] {
      StrLessEqTransitive(a[1..], b[1..], c[1..]);
    }
  }

  lemma {:induction false} StrLessEqAntisymmetric(a: string, b: string)
    requires StrLessEq(a, b) && StrLessEq(b, a)
    ensures a == b
  {
    if a != [] {
      StrLessEqAntisymmetric(a[1..], b[1..]);
      assert a == [a[0]] + a[1..] && b == [b[0]] + b[1..];
    }
  }

  predicate IsSorted(s: seq<string>) {
    forall i, j :: 0 <= i < j < |s| ==> StrLessEq(s[i], s[j])
  }

  /** Places `x` in the sorted sequence `s` before the first element it does not exceed. */
  function Insert(x: string, s: seq<string>): seq<string>
  {
    if s == [] || StrLessEq(x, s[0]) then [x] + s else [s[0]] + Insert(x, s[1..])
  }

  lemma {:induction false} InsertSorted(x: string, s: seq<string>)
    requires IsSorted(s)
    ensures IsSorted(Insert(x, s)) && multiset(Insert(x, s)) == multiset(s) + multiset{x}
  {
    InsertPermutes(x, s);
    if s == [] {
    } else if StrLessEq(x, s[0]) {
      ConsSorted(x, s);
    } else {
      StrLessEqTotal(x, s[0]);
      InsertSorted(x, s[1..]);
      InsertPermutes(x, s[1..]);
      BoundsInsert(s[0], x, s[1..]);
      ConsSorted(s[0], Insert(x, s[1..]));
    }
  }

  /** Inserting adds exactly `x` to the multiset of elements. */
  lemma {:induction false} InsertPermutes(x: string, s: seq<string>)
    ensures multiset(Insert(x, s)) == multiset(s) + multiset{x}
  {
    if s != [] && !StrLessEq(x, s[0]) {
      InsertPermutes(x, s[1..]);
      assert s == [s[0]] + s[1..];
    }
  }

  /** Every element of a sorted sequence bounded below by its head stays
      bounded after `x`, also bounded, is inserted. */
  lemma BoundsInsert(h: string, x: string, s: seq<string>)
    requires StrLessEq(h, x)
    requires forall j :: 0 <= j < |s| ==> StrLessEq(h, s[j])
    requires multiset(Insert(x, s)) == multiset(s) + multiset{x}
    ensures forall j :: 0 <= j < |Insert(x, s)| ==> StrLessEq(h, Insert(x, s)[j])
  {
    var tail := Insert(x, s);
    forall j | 0 <= j < |tail| ensures StrLessEq(h, tail[j]) {
      assert tail[j] in multiset(s) + multiset{x};
      if tail[j] != x {
        var k :| 0 <= k < |s| && s[k] == tail[j];
      }
    }
  }

  /** A head no greater than the first element of a sorted sequence keeps it sorted. */
  lemma ConsSorted(h: string, s: seq<string>)
    requires IsSorted(s)
    requires (s != [] && StrLessEq(h, s[0])) || forall j :: 0 <= j < |s| ==> StrLessEq(h, s[j])
    ensures IsSorted([h] + s)
  {
    var r := [h] + s;
    forall i, j | 0 <= i < j < |r| ensures StrLessEq(r[i], r[j]) {
      if i == 0 && j > 1 { StrLessEqTransitive(h, s[0], s[j - 1]); }
      else if i > 0 { assert r[i] == s[i - 1] && r[j] == s[j - 1]; }
    }
  }

  /** Python's `sorted` on a list of strings (insertion sort). */
  function Sort(xs: seq<string>): seq<string>
  {
    if xs == [] then [] else Insert(xs[0], Sort(xs[1..]))
  }

  /** `sorted` returns its input in non-decreasing order, as a permutation. */
  lemma {:induction false} SortCorrect(xs: seq<string>)
    ensures IsSorted(Sort(xs)) && multiset(Sort(xs)) == multiset(xs)
  {
    if xs != [] {
      SortCorrect(xs[1..]);
      InsertSorted(xs[0], Sort(xs[1..]));
      assert xs == [xs[0]] + xs[1..];
    }
  }

  /** `[k for k in d if k != 'English']`: the names other than English, in order. */
  function OtherNames(d: seq<(string, string)>): (ks: seq<string>)
    ensures forall i :: 0 <= i < |ks| ==> ks[i] != "English"
    ensures forall i :: 0 <= i < |d| && d[i].0 != "English" ==> d[i].0 in ks
    ensures forall k :: k in ks ==> exists i :: 0 <= i < |d| && d[i].0 == k
  {
    if d == [] then []
    else if d[0].0 == "English" then OtherNames(d[1..])
    else [d[0].0] + OtherNames(d[1..])
  }

  /** The comprehension keeps every name other than "English" exactly as
      often as the table holds it. */
  lemma {:induction false} OtherNamesCounts(d: seq<(string, string)>)
    ensures forall k :: k != "English" ==> multiset(OtherNames(d))[k] == multiset(Names(d))[k]
  {
    if d != [] {
      OtherNamesCounts(d[1..]);
      assert Names(d) == [d[0].0] + Names(d[1..]);
    }
  }

  /** The table's display names, in order, each as often as it occurs. */
  function Names(d: seq<(string, string)>): (ns: seq<string>)
    ensures |ns| == |d| && forall i :: 0 <= i < |d| ==> ns[i] == d[i].0
  {
    if d == [] then [] else [d[0].0] + Names(d[1..])
  }

  /** `get_language_keys`: "English", then every other name of the table in
      Python's string order, each as often as it occurs. */
  function LanguageKeys(d: seq<(string, string)>): (r: seq<string>)
    ensures |r| >= 1 && r[0] == "English"
    ensures IsSorted(r[1..]) && multiset(r[1..]) == multiset(OtherNames(d))
    ensures forall i :: 1 <= i < |r| ==> r[i] != "English"
  {
    var others := OtherNames(d);
    SortCorrect(others);
    var sorted := Sort(others);
    assert forall i :: 0 <= i < |sorted| ==> sorted[i] in multiset(others);
    assert (["English"] + sorted)[1..] == sorted;
    ["English"] + sorted
  }

  /** After "English", `get_language_keys` lists every other name of the
      table exactly as often as the table holds it. */
  lemma LanguageKeysCounts(d: seq<(string, string)>)
    ensures forall k :: k != "English" ==> multiset(LanguageKeys(d)[1..])[k] == multiset(Names(d))[k]
  {
    OtherNamesCounts(d);
  }
}
