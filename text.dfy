/**
 * String surgery on `/`-separated text, with the meaning of Rust's `str::starts_with`,
 * `str::split(char)` (every occurrence of the separator cuts, so "a/" splits into "a" and "")
 * and `[String]::join`.
 */
module Text {

  predicate StartsWith(s: string, prefix: string) {
    |prefix| <= |s| && s[..|prefix|] == prefix
  }

  /** Text that starts with `prefix` still does after more is appended. */
  lemma StartsWithExtend(s: string, t: string, prefix: string)
    requires StartsWith(s, prefix)
    ensures StartsWith(s + t, prefix)
  {
    assert (s + t)[..|prefix|] == s[..|prefix|];
  }

  predicate EndsWith(s: string, c: char) {
    |s| > 0 && s[|s| - 1] == c
  }

  /** The index of the first `c` in `s`, or `|s|` when there is none. */
  function IndexOf(s: string, c: char): (i: nat)
    ensures i <= |s|
    ensures i < |s| ==> s[i] == c
    ensures forall j :: 0 <= j < i ==> s[j] != c
  {
    if s == [] then 0
    else if s[0] == c then 0
    else 1 + IndexOf(s[1..], c)
  }

  /** `s.split(sep)`: the pieces between the separators, at least one of them. */
  function Split(s: string, sep: char): (parts: seq<string>)
    ensures |parts| >= 1
    ensures forall k :: 0 <= k < |parts| ==> sep !in parts[k]
    decreases |s|
  {
    var i := IndexOf(s, sep);
    if i == |s| then [s] else [s[..i]] + Split(s[i + 1..], sep)
  }

  /** One step of `Split` at the first separator. */
  lemma SplitFirst(s: string, sep: char)
    requires IndexOf(s, sep) < |s|
    ensures Split(s, sep) == [s[..IndexOf(s, sep)]] + Split(s[IndexOf(s, sep) + 1..], sep)
  {
  }

  /** `parts.join(sep)`. */
  function Join(parts: seq<string>, sep: char): string {
    if |parts| == 0 then []
    else if |parts| == 1 then parts[0]
    else parts[0] + [sep] + Join(parts[1..], sep)
  }

  /** Every `/`-separated component of `s` is non-empty: `s` is not empty, does not start or end with `/`
      and has no `//`. */
  predicate ComponentsNonEmpty(s: string) {
    var parts := Split(s, '/');
    forall k :: 0 <= k < |parts| ==> parts[k] != []
  }

  lemma SplitNoSep(s: string, sep: char)
    requires sep !in s
    ensures Split(s, sep) == [s]
  {
  }

  /** Splitting at a separator that follows a separator-free head. */
  lemma SplitCons(a: string, sep: char, t: string)
    requires sep !in a
    ensures Split(a + [sep] + t, sep) == [a] + Split(t, sep)
  {
    var s := a + [sep] + t;
    var i := IndexOf(s, sep);
    assert s[|a|] == sep;
    assert i == |a|;
    assert s[..i] == a && s[i + 1..] == t;
  }

  /** The first separator of `a` is also the first of `a` followed by more text. */
  lemma SplitAppendStep(a: string, sep: char, b: string)
    requires IndexOf(a, sep) < |a|
    ensures Split(a + [sep] + b, sep) == [a[..IndexOf(a, sep)]] + Split(a[IndexOf(a, sep) + 1..] + [sep] + b, sep)
  {
    var i := IndexOf(a, sep);
    var head, tail := a[..i], a[i + 1..];
    assert sep !in head by {
      assert forall j :: 0 <= j < |head| ==> head[j] == a[j];
    }
    assert a + [sep] + b == head + [sep] + (tail + [sep] + b) by {
      assert a == head + [sep] + tail;
    }
    SplitCons(head, sep, tail + [sep] + b);
  }

  /** Splitting distributes over one separator: `split` of `a/b` is `split a` followed by `split b`. */
  lemma {:induction false} SplitAppend(a: string, sep: char, b: string)
    ensures Split(a + [sep] + b, sep) == Split(a, sep) + Split(b, sep)
    decreases |a|
  {
    var i := IndexOf(a, sep);
    if i == |a| {
      SplitNoSep(a, sep);
      SplitCons(a, sep, b);
    } else {
      var head, tail := a[..i], a[i + 1..];
      SplitAppendStep(a, sep, b);
      SplitFirst(a, sep);
      SplitAppend(tail, sep, b);
      assert [head] + (Split(tail, sep) + Split(b, sep)) == ([head] + Split(tail, sep)) + Split(b, sep);
    }
  }

  lemma JoinCons(a: string, rest: seq<string>, sep: char)
    requires |rest| >= 1
    ensures Join([a] + rest, sep) == a + [sep] + Join(rest, sep)
  {
    assert ([a] + rest)[1..] == rest;
  }

  /** Joining the pieces of a split gives the text back. */
  lemma {:induction false} JoinSplit(s: string, sep: char)
    ensures Join(Split(s, sep), sep) == s
    decreases |s|
  {
    var i := IndexOf(s, sep);
    if i < |s| {
      var head, tail := s[..i], s[i + 1..];
      SplitFirst(s, sep);
      JoinSplit(tail, sep);
      JoinCons(head, Split(tail, sep), sep);
      assert s == head + [sep] + tail;
    } else {
      SplitNoSep(s, sep);
    }
  }

  /** Splitting a join of separator-free pieces gives the pieces back. */
  lemma {:induction false} SplitJoin(parts: seq<string>, sep: char)
    requires |parts| >= 1
    requires forall k :: 0 <= k < |parts| ==> sep !in parts[k]
    ensures Split(Join(parts, sep), sep) == parts
    decreases |parts|
  {
    if |parts| == 1 {
      SplitNoSep(parts[0], sep);
    } else {
      SplitJoin(parts[1..], sep);
      SplitCons(parts[0], sep, Join(parts[1..], sep));
      assert parts == [parts[0]] + parts[1..];
    }
  }

  /** Joining two non-empty runs of pieces puts exactly one separator between them. */
  lemma {:induction false} JoinAppend(xs: seq<string>, ys: seq<string>, sep: char)
    requires |xs| >= 1 && |ys| >= 1
    ensures Join(xs + ys, sep) == Join(xs, sep) + [sep] + Join(ys, sep)
    decreases |xs|
  {
    if |xs| == 1 {
      JoinCons(xs[0], ys, sep);
    } else {
      assert (xs + ys)[1..] == xs[1..] + ys;
      JoinAppend(xs[1..], ys, sep);
    }
  }

  /** The components of `a/b` are non-empty exactly when those of `a` and of `b` are. */
  lemma ComponentsNonEmptyAppend(a: string, b: string)
    ensures ComponentsNonEmpty(a + "/" + b) <==> ComponentsNonEmpty(a) && ComponentsNonEmpty(b)
  {
    SplitAppend(a, '/', b);
    var pa, pb := Split(a, '/'), Split(b, '/');
    assert Split(a + "/" + b, '/') == pa + pb;
    if ComponentsNonEmpty(a + "/" + b) {
      forall k | 0 <= k < |pa| ensures pa[k] != [] { assert (pa + pb)[k] == pa[k]; }
      forall k | 0 <= k < |pb| ensures pb[k] != [] { assert (pa + pb)[|pa| + k] == pb[k]; }
    }
    if ComponentsNonEmpty(a) && ComponentsNonEmpty(b) {
      forall k | 0 <= k < |pa + pb| ensures (pa + pb)[k] != [] {
        if k < |pa| { assert (pa + pb)[k] == pa[k]; } else { assert (pa + pb)[k] == pb[k - |pa|]; }
      }
    }
  }

  /** Text with non-empty components is not empty and never ends with `/`. */
  lemma ComponentsNonEmptyNoTrailingSlash(s: string)
    ensures ComponentsNonEmpty(s) ==> s != [] && !EndsWith(s, '/')
  {
    if s == [] {
      assert Split(s, '/')[0] == [];
    } else if EndsWith(s, '/') {
      var a := s[..|s| - 1];
      assert s == a + "/" + [];
      SplitAppend(a, '/', []);
      assert Split([], '/') == [[]];
      var parts := Split(s, '/');
      assert parts[|parts| - 1] == [];
    }
  }
}
