/**
 * The four refname wrappers of `radicle-git-ext` (`RefLike`, `OneLevel`, `Qualified`,
 * `RefspecPattern`), each a single string, and the conversions between them.
 *
 * The wrappers do not carry their validity in their type: as in the source, only the validated
 * constructors (`…TryFrom…`) consult the validator, and the total conversions rewrap text. The
 * predicates `NameShape` and `PatternShape` of module `Check` express the part of validity that the
 * lemmas below reason about.
 */
module Name {
  import opened Wrappers
  import opened Text
  import opened Check
  import U8 = Utf8

  /** `name::Error`. */
  datatype Error = Utf8 | RefFormat(cause: CheckError)

  /** `Error::empty`. */
  const EmptyError: Error := RefFormat(Empty)

  /** `name::StripPrefixError`. */
  datatype StripPrefixError = ImproperPrefix | NotPrefix

  /** A valid refname, one-level names allowed, no `*`. */
  datatype RefLike = RefLike(path: string)

  /** A `RefLike` with a leading `refs/<category>/` removed. */
  datatype OneLevel = OneLevel(path: string)

  /** A `RefLike` that starts with `refs/`. */
  datatype Qualified = Qualified(path: string)

  /** A valid refspec pattern: like a refname, but with at most one `*`. */
  datatype RefspecPattern = RefspecPattern(path: string)

  // ---------------------------------------------------------------------------------------------
  // Validated constructors

  /** `RefLike::try_from(&str)`; `from_str` and `try_from(String)` are the same function. */
  function RefLikeTryFromStr(fmt: RefFormat, s: string): (r: Result<RefLike, Error>)
    ensures r.Success? <==> fmt(RefLikeOptions, s).Pass?
    ensures r.Success? ==> r.value.path == s
    ensures r.Failure? ==> r.error == RefFormat(fmt(RefLikeOptions, s).error)
    ensures Conforms(fmt) && r.Success? ==> NameShape(r.value.path)
  {
    match fmt(RefLikeOptions, s)
    case Pass => Success(RefLike(s))
    case Fail(e) => Failure(RefFormat(e))
  }

  /** `RefLike::try_from(&[u8])`: UTF-8 first, then the text constructor. */
  function RefLikeTryFromBytes(fmt: RefFormat, bytes: seq<U8.byte>): (r: Result<RefLike, Error>)
    ensures U8.Decode(bytes).None? ==> r == Failure(Utf8)
    ensures r.Success? ==> U8.Encode(r.value.path) == bytes && fmt(RefLikeOptions, r.value.path).Pass?
    ensures r.Failure? && r.error.RefFormat? ==>
      U8.Decode(bytes).Some? && fmt(RefLikeOptions, U8.Decode(bytes).value) == Fail(r.error.cause)
  {
    match U8.Decode(bytes)
    case None => Failure(Utf8)
    case Some(s) => U8.EncodeDecode(bytes); RefLikeTryFromStr(fmt, s)
  }

  /** `RefspecPattern::try_from(&str)`; `from_str` and `try_from(String)` are the same function. */
  function PatternTryFromStr(fmt: RefFormat, s: string): (r: Result<RefspecPattern, Error>)
    ensures r.Success? <==> fmt(PatternOptions, s).Pass?
    ensures r.Success? ==> r.value.path == s
    ensures r.Failure? ==> r.error == RefFormat(fmt(PatternOptions, s).error)
    ensures Conforms(fmt) && r.Success? ==> PatternShape(r.value.path)
  {
    match fmt(PatternOptions, s)
    case Pass => Success(RefspecPattern(s))
    case Fail(e) => Failure(RefFormat(e))
  }

  /** `RefspecPattern::try_from(&[u8])`. */
  function PatternTryFromBytes(fmt: RefFormat, bytes: seq<U8.byte>): (r: Result<RefspecPattern, Error>)
    ensures U8.Decode(bytes).None? ==> r == Failure(Utf8)
    ensures r.Success? ==> U8.Encode(r.value.path) == bytes && fmt(PatternOptions, r.value.path).Pass?
    ensures r.Failure? && r.error.RefFormat? ==>
      U8.Decode(bytes).Some? && fmt(PatternOptions, U8.Decode(bytes).value) == Fail(r.error.cause)
  {
    match U8.Decode(bytes)
    case None => Failure(Utf8)
    case Some(s) => U8.EncodeDecode(bytes); PatternTryFromStr(fmt, s)
  }

  /** The bytes of a text construct exactly what the text does. */
  lemma TryFromBytesOfText(fmt: RefFormat, s: string)
    ensures RefLikeTryFromBytes(fmt, U8.Encode(s)) == RefLikeTryFromStr(fmt, s)
    ensures PatternTryFromBytes(fmt, U8.Encode(s)) == PatternTryFromStr(fmt, s)
  {
    U8.DecodeEncode(s);
  }

  /** A validator that conforms never lets a second `*` into a pattern. */
  lemma PatternRejectsTwoStars(fmt: RefFormat, s: string)
    requires Conforms(fmt)
    requires StarCount(s) >= 2
    ensures PatternTryFromStr(fmt, s).Failure?
    ensures RefLikeTryFromStr(fmt, s).Failure?
  {
  }

  // ---------------------------------------------------------------------------------------------
  // RefLike

  /** `RefLike::join`: no re-validation; joining keeps the shape the proofs track (`JoinComponents`),
      but not the length limit. */
  function Join(self: RefLike, other: RefLike): (r: RefLike)
    ensures r.path == self.path + "/" + other.path
  {
    RefLike(self.path + "/" + other.path)
  }

  /** The components of a join are those of its operands, and it is a valid name exactly when both
      operands are. */
  lemma JoinComponents(self: RefLike, other: RefLike)
    ensures Split(Join(self, other).path, '/') == Split(self.path, '/') + Split(other.path, '/')
    ensures NameShape(Join(self, other).path) <==> NameShape(self.path) && NameShape(other.path)
  {
    SplitAppend(self.path, '/', other.path);
    ComponentsNonEmptyAppend(self.path, other.path);
  }

  /** A join is one byte longer than its operands together, so joining two names that are within
      the 1024-byte limit can give one that is not: `join` does not check the limit again. */
  lemma JoinLength(self: RefLike, other: RefLike)
    ensures |U8.Encode(Join(self, other).path)| == |U8.Encode(self.path)| + 1 + |U8.Encode(other.path)|
  {
    var slash := "/";
    U8.EncodeAppend(self.path + slash, other.path);
    U8.EncodeAppend(self.path, slash);
    U8.EncodeAscii(slash);
  }

  /** `RefLike::with_pattern_suffix`. */
  function WithPatternSuffix(self: RefLike, suf: RefspecPattern): (r: RefspecPattern)
    ensures r.path == self.path + "/" + suf.path
    ensures NameShape(self.path) && PatternShape(suf.path) ==> PatternShape(r.path)
  {
    ComponentsNonEmptyAppend(self.path, suf.path);
    RefspecPattern(self.path + "/" + suf.path)
  }

  /** `base` with one trailing `/` removed (`strip_suffix('/').unwrap_or(base)`). */
  function TrimSlash(base: string): (t: string)
    ensures EndsWith(base, '/') ==> t + "/" == base
    ensures !EndsWith(base, '/') ==> t == base
  {
    if EndsWith(base, '/') then base[..|base| - 1] else base
  }

  /** `RefLike::strip_prefix`: the name that, joined onto `base`, gives `self`. */
  function StripPrefix(self: RefLike, base: string): (r: Result<RefLike, StripPrefixError>)
    ensures r.Success? ==> r.value.path != [] && Join(RefLike(TrimSlash(base)), r.value) == self
    ensures r == Failure(NotPrefix) <==> !StartsWith(self.path, TrimSlash(base) + "/")
    ensures r == Failure(ImproperPrefix) <==> self.path == TrimSlash(base) + "/"
  {
    var b := TrimSlash(base) + "/";
    if StartsWith(self.path, b) then
      var rest := self.path[|b|..];
      if rest == [] then Failure(ImproperPrefix)
      else
        assert self.path == b + rest;
        Success(RefLike(rest))
    else
      Failure(NotPrefix)
  }

  /** Stripping the left operand off a join gives the right operand back. Valid names satisfy both
      requirements (`ComponentsNonEmptyNoTrailingSlash`). */
  lemma StripPrefixOfJoin(r: RefLike, s: RefLike)
    requires !EndsWith(r.path, '/')
    requires s.path != []
    ensures StripPrefix(Join(r, s), r.path) == Success(s)
    ensures StripPrefix(Join(r, s), r.path + "/") == Success(s)
  {
    var j := Join(r, s).path;
    assert TrimSlash(r.path) == r.path;
    assert TrimSlash(r.path + "/") == r.path;
    assert j[..|r.path| + 1] == r.path + "/";
    assert j[|r.path| + 1..] == s.path;
  }

  /** A valid name is not a proper prefix of itself: stripping it gives `NotPrefix`, and
      `ImproperPrefix` is never the answer for a valid name. */
  lemma StripPrefixErrors(r: RefLike, base: string)
    requires NameShape(r.path)
    ensures StripPrefix(r, r.path) == Failure(NotPrefix)
    ensures StripPrefix(r, base) != Failure(ImproperPrefix)
  {
    ComponentsNonEmptyNoTrailingSlash(r.path);
    assert TrimSlash(r.path) == r.path;
  }

  /** The match is by whole components. */
  lemma StripPrefixExampleSegment()
    ensures StripPrefix(RefLike("refs/heads/x"), "refs/he") == Failure(NotPrefix)
    ensures StripPrefix(RefLike("refs/heads/x"), "refs/tags") == Failure(NotPrefix)
  {
    var x := "refs/heads/x";
    assert TrimSlash("refs/he") == "refs/he" && TrimSlash("refs/tags") == "refs/tags";
    assert x[7] == 'a' && ("refs/he" + "/")[7] == '/';
    assert x[5] == 'h' && ("refs/tags" + "/")[5] == 't';
  }

  lemma StripPrefixExampleBase()
    ensures StripPrefix(RefLike("refs/heads/x"), "refs/heads") == Success(RefLike("x"))
    ensures StripPrefix(RefLike("refs/heads/x"), "refs/heads/") == Success(RefLike("x"))
  {
    var b, x := "refs/heads", "x";
    assert "refs/heads/x" == b + "/" + x;
    StripPrefixOfJoin(RefLike(b), RefLike(x));
  }

  function Paths(rs: seq<RefLike>): (ps: seq<string>)
    ensures |ps| == |rs| && forall i :: 0 <= i < |rs| ==> ps[i] == rs[i].path
  {
    if rs == [] then [] else [rs[0].path] + Paths(rs[1..])
  }

  /** `FromIterator<RefLike> for RefLike`: the names joined by `/` (the empty text for no names). */
  function FromIter(rs: seq<RefLike>): (r: RefLike)
    ensures |rs| == 1 ==> r == rs[0]
  {
    RefLike(Text.Join(Paths(rs), '/'))
  }

  /** Collecting is repeated `join`. */
  lemma FromIterSnoc(rs: seq<RefLike>, s: RefLike)
    requires |rs| >= 1
    ensures FromIter(rs + [s]) == Join(FromIter(rs), s)
  {
    assert Paths(rs + [s]) == Paths(rs) + Paths([s]);
    JoinAppend(Paths(rs), Paths([s]), '/');
  }

  /** Collecting one or more valid names gives a valid name. */
  lemma {:induction false} FromIterShape(rs: seq<RefLike>)
    requires |rs| >= 1
    requires forall i :: 0 <= i < |rs| ==> NameShape(rs[i].path)
    ensures NameShape(FromIter(rs).path)
    decreases |rs|
  {
    if |rs| > 1 {
      var init := rs[..|rs| - 1];
      assert rs == init + [rs[|rs| - 1]];
      FromIterShape(init);
      FromIterSnoc(init, rs[|rs| - 1]);
      JoinComponents(FromIter(init), rs[|rs| - 1]);
    }
  }

  lemma FromIterEmpty()
    ensures FromIter([]).path == []
  {
  }

  // ---------------------------------------------------------------------------------------------
  // OneLevel

  /** `skip(n)` on a list of pieces. */
  function Drop(parts: seq<string>, n: nat): seq<string> {
    if |parts| <= n then [] else parts[n..]
  }

  /** What follows `refs/` with its first component (and the `/` ending it) removed. */
  function AfterCategory(s: string): string
    requires StartsWith(s, "refs/")
  {
    var t := s[5..];
    var i := IndexOf(t, '/');
    if i < |t| then t[i + 1..] else []
  }

  lemma DropCons(head: string, rest: seq<string>)
    ensures Drop([head] + rest, 1) == rest
  {
    assert ([head] + rest)[1..] == rest;
  }

  /** Dropping the first piece of a split leaves the text after the first separator. */
  lemma DropOneComponent(t: string)
    requires IndexOf(t, '/') < |t|
    ensures Text.Join(Drop(Split(t, '/'), 1), '/') == t[IndexOf(t, '/') + 1..]
  {
    var i := IndexOf(t, '/');
    var tail := t[i + 1..];
    DropOfSplit(t, i, tail);
    JoinSplit(tail, '/');
  }

  lemma DropOfSplit(t: string, i: nat, tail: string)
    requires i == IndexOf(t, '/') && i < |t| && tail == t[i + 1..]
    ensures Drop(Split(t, '/'), 1) == Split(tail, '/')
  {
    var head := t[..i];
    assert '/' !in head by {
      assert forall j :: 0 <= j < |head| ==> head[j] == t[j];
    }
    assert t == head + ['/'] + tail;
    SplitCons(head, '/', tail);
    DropCons(head, Split(tail, '/'));
  }

  lemma DropTwoComponents(s: string)
    requires StartsWith(s, "refs/")
    ensures Text.Join(Drop(Split(s, '/'), 2), '/') == AfterCategory(s)
  {
    var head, t := s[..4], s[5..];
    assert head == "refs" && s[4] == '/' by {
      assert s[..5] == "refs/";
    }
    assert '/' !in head;
    assert s == head + ['/'] + t;
    SplitCons(head, '/', t);
    var pt := Split(t, '/');
    assert Split(s, '/')[1..] == pt;
    assert Drop(Split(s, '/'), 2) == Drop(pt, 1);
    if IndexOf(t, '/') < |t| {
      DropOneComponent(t);
    }
  }

  /** `OneLevel::from(RefLike)`: if the text starts with `refs/`, drop its first two components. */
  function OneLevelFromRefLike(r: RefLike): (o: OneLevel)
    ensures StartsWith(r.path, "refs/") ==> o.path == AfterCategory(r.path)
    ensures !StartsWith(r.path, "refs/") ==> o.path == r.path
  {
    if StartsWith(r.path, "refs/") then
      DropTwoComponents(r.path);
      OneLevel(Text.Join(Drop(Split(r.path, '/'), 2), '/'))
    else
      OneLevel(r.path)
  }

  /** `OneLevel::from(Qualified)`. */
  function OneLevelFromQualified(q: Qualified): (o: OneLevel)
    ensures o == OneLevelFromRefLike(RefLike(q.path))
  {
    OneLevelFromRefLike(RefLike(q.path))
  }

  /** The collapsed form of `refs/<category>/<rest>` is `<rest>`. */
  lemma OneLevelDropsCategory(category: string, rest: string)
    requires '/' !in category
    ensures OneLevelFromRefLike(RefLike("refs/" + category + "/" + rest)).path == rest
  {
    var s := "refs/" + category + "/" + rest;
    var t := s[5..];
    assert t == category + "/" + rest;
    assert IndexOf(t, '/') == |category| by {
      assert t[|category|] == '/';
      assert forall j :: 0 <= j < |category| ==> t[j] == category[j];
    }
    assert t[|category| + 1..] == rest;
  }

  /** With only two components, both go: `refs/heads` and `refs/HEAD` collapse to the empty text. */
  lemma OneLevelOfTwoComponents(category: string)
    requires '/' !in category
    ensures OneLevelFromRefLike(RefLike("refs/" + category)).path == []
  {
    var s := "refs/" + category;
    assert s[5..] == category;
  }

  lemma OneLevelExampleHeads()
    ensures OneLevelFromRefLike(RefLike("refs/heads/next")).path == "next"
  {
    var heads, next := "heads", "next";
    assert "refs/" + heads + "/" + next == "refs/heads/next";
    OneLevelDropsCategory(heads, next);
  }

  lemma OneLevelExampleRemotes()
    ensures OneLevelFromRefLike(RefLike("refs/remotes/origin/it")).path == "origin/it"
  {
    var remotes, it := "remotes", "origin/it";
    assert "refs/" + remotes + "/" + it == "refs/remotes/origin/it";
    OneLevelDropsCategory(remotes, it);
  }

  lemma OneLevelExampleUnqualified()
    ensures OneLevelFromRefLike(RefLike("mistress")).path == "mistress"
  {
    var m := "mistress";
    assert !StartsWith(m, "refs/") by {
      assert m[0] == 'm';
    }
  }

  /** The test for `refs/` is on the text, not on components: `refsx/…` is left alone. */
  lemma OneLevelExampleLiteralPrefix()
    ensures OneLevelFromRefLike(RefLike("refsx/heads/y")).path == "refsx/heads/y"
  {
    var m := "refsx/heads/y";
    assert !StartsWith(m, "refs/") by {
      assert m[4] == 'x';
    }
  }

  lemma OneLevelExampleHead()
    ensures OneLevelFromRefLike(RefLike("refs/HEAD")).path == ""
  {
    var head := "HEAD";
    assert "refs/" + head == "refs/HEAD";
    OneLevelOfTwoComponents(head);
  }

  /** `strip_prefix("refs/").unwrap_or(path)`. */
  function Unqualified(s: string): string {
    if StartsWith(s, "refs/") then s[5..] else s
  }

  lemma QualifiedHasSlash(s: string)
    ensures StartsWith(s, "refs/") ==> '/' in s
  {
    if StartsWith(s, "refs/") {
      assert s[4] == '/';
    }
  }

  /** `OneLevel::from_qualified`: after `refs/`, the first component is the category if another
      component follows it; otherwise there is no category and that component is the name. */
  function FromQualified(q: Qualified): (res: (OneLevel, Option<RefLike>))
    ensures res.1.Some? ==> '/' !in res.1.value.path && Unqualified(q.path) == res.1.value.path + "/" + res.0.path
    ensures res.1.None? ==> '/' !in Unqualified(q.path) && res.0.path == Unqualified(q.path)
  {
    var t := Unqualified(q.path);
    var parts := Split(t, '/');
    // `split` yields at least one piece, so the `unreachable!()` arm of the source cannot be taken.
    var category := RefLike(parts[0]);
    JoinSplit(t, '/');
    if |parts| >= 2 then
      assert parts == [parts[0]] + parts[1..];
      JoinCons(parts[0], parts[1..], '/');
      (OneLevel(Text.Join(parts[1..], '/')), Some(category))
    else
      QualifiedHasSlash(parts[0]);
      (OneLevelFromRefLike(category), None)
  }

  /** `OneLevel::into_qualified`. */
  function IntoQualified(self: OneLevel, category: RefLike): (q: Qualified)
    ensures StartsWith(q.path, "refs/")
    ensures Unqualified(q.path) == category.path + "/" + self.path
  {
    Qualified("refs/" + category.path + "/" + self.path)
  }

  /** `into_qualified` undoes `from_qualified` whenever a category was found in a qualified name. */
  lemma IntoQualifiedOfFromQualified(q: Qualified)
    requires StartsWith(q.path, "refs/")
    requires FromQualified(q).1.Some?
    ensures IntoQualified(FromQualified(q).0, FromQualified(q).1.value) == q
  {
    assert q.path == "refs/" + q.path[5..];
  }

  /** `from_qualified` undoes `into_qualified` for a one-component category. */
  lemma FromQualifiedOfIntoQualified(o: OneLevel, category: RefLike)
    requires '/' !in category.path
    ensures FromQualified(IntoQualified(o, category)) == (o, Some(category))
  {
    var t := category.path + "/" + o.path;
    assert Unqualified(IntoQualified(o, category).path) == t;
    SplitCons(category.path, '/', o.path);
    JoinSplit(o.path, '/');
  }

  /** A name with a single component after `refs/` has no category: the component is the name. */
  lemma FromQualifiedOneComponent(q: Qualified)
    requires '/' !in Unqualified(q.path)
    ensures FromQualified(q) == (OneLevel(Unqualified(q.path)), None)
  {
  }

  lemma FromQualifiedExampleTags()
    ensures FromQualified(Qualified("refs/tags/grace")) == (OneLevel("grace"), Some(RefLike("tags")))
  {
    var grace, tags := "grace", "tags";
    assert "refs/" + tags + "/" + grace == "refs/tags/grace";
    FromQualifiedOfIntoQualified(OneLevel(grace), RefLike(tags));
  }

  lemma FromQualifiedExampleRemotes()
    ensures FromQualified(Qualified("refs/remotes/origin/hopper")) == (OneLevel("origin/hopper"), Some(RefLike("remotes")))
    ensures IntoQualified(OneLevel("origin/hopper"), RefLike("remotes")).path == "refs/remotes/origin/hopper"
  {
    var hopper, remotes := "origin/hopper", "remotes";
    assert "refs/" + remotes + "/" + hopper == "refs/remotes/origin/hopper";
    FromQualifiedOfIntoQualified(OneLevel(hopper), RefLike(remotes));
  }

  lemma FromQualifiedExampleHead()
    ensures FromQualified(Qualified("refs/HEAD")) == (OneLevel("HEAD"), None)
  {
    var head := "refs/HEAD";
    assert head[..5] == "refs/" && head[5..] == "HEAD";
    FromQualifiedOneComponent(Qualified(head));
  }

  // ---------------------------------------------------------------------------------------------
  // Qualified

  lemma RefsHeadsShape(refs: string, heads: string)
    requires refs == "refs" && heads == "heads"
    ensures NameShape(refs + "/" + heads)
  {
    OneComponentShape(refs);
    OneComponentShape(heads);
    ComponentsNonEmptyAppend(refs, heads);
  }

  /** `Qualified::from(RefLike)`: unqualified names default to the `heads` category. */
  function QualifiedFromRefLike(r: RefLike): (q: Qualified)
    ensures StartsWith(q.path, "refs/")
    ensures StartsWith(r.path, "refs/") ==> q.path == r.path
    ensures !StartsWith(r.path, "refs/") ==> q.path == "refs/heads/" + r.path
  {
    if StartsWith(r.path, "refs/") then Qualified(r.path) else Qualified("refs/heads/" + r.path)
  }

  /** Qualifying keeps the shape of a valid name (not the length limit). */
  lemma QualifiedShape(r: RefLike)
    requires NameShape(r.path)
    ensures NameShape(QualifiedFromRefLike(r).path)
  {
    if !StartsWith(r.path, "refs/") {
      var refs, heads := "refs", "heads";
      var h := refs + "/" + heads;
      assert "refs/heads/" + r.path == h + "/" + r.path;
      RefsHeadsShape(refs, heads);
      ComponentsNonEmptyAppend(h, r.path);
    }
  }

  /** The default qualification adds the eleven bytes of `refs/heads/`, which the limit does not
      account for either. */
  lemma QualifiedLength(r: RefLike)
    requires !StartsWith(r.path, "refs/")
    ensures |U8.Encode(QualifiedFromRefLike(r).path)| == |U8.Encode(r.path)| + 11
  {
    var prefix := "refs/heads/";
    assert QualifiedFromRefLike(r).path == prefix + r.path;
    U8.EncodeAppend(prefix, r.path);
    RefsHeadsBytes(prefix);
  }

  lemma RefsHeadsBytes(prefix: string)
    requires prefix == "refs/heads/"
    ensures |U8.Encode(prefix)| == 11
  {
    U8.EncodeAscii(prefix);
  }

  /** `Qualified::from(OneLevel)`: the same rule, applied to the collapsed text. */
  function QualifiedFromOneLevel(o: OneLevel): (q: Qualified)
    ensures q == QualifiedFromRefLike(RefLike(o.path))
  {
    QualifiedFromRefLike(RefLike(o.path))
  }

  /** Qualifying twice is qualifying once. */
  lemma QualifiedIdempotent(r: RefLike)
    ensures QualifiedFromRefLike(QualifiedToRefLike(QualifiedFromRefLike(r))) == QualifiedFromRefLike(r)
  {
  }

  /** Collapsing ignores the default qualification. */
  lemma OneLevelOfQualified(r: RefLike)
    ensures OneLevelFromQualified(QualifiedFromRefLike(r)) == OneLevelFromRefLike(r)
  {
    var q := QualifiedFromRefLike(r);
    if StartsWith(r.path, "refs/") {
      assert q.path == r.path;
    } else {
      var heads := "heads";
      assert q.path == "refs/" + heads + "/" + r.path;
      assert OneLevelFromRefLike(RefLike(q.path)).path == r.path by {
        OneLevelDropsCategory(heads, r.path);
      }
      assert OneLevelFromRefLike(r).path == r.path;
    }
  }

  /** A collapsed name that is not itself qualified survives qualifying and collapsing again: the
      cross-acceptance of the two spellings loses nothing. */
  lemma OneLevelQualifiedRoundTrip(o: OneLevel)
    requires !StartsWith(o.path, "refs/")
    ensures OneLevelFromQualified(QualifiedFromOneLevel(o)) == o
  {
    OneLevelOfQualified(RefLike(o.path));
  }

  lemma QualifiedExampleDefault()
    ensures QualifiedFromRefLike(RefLike("laplace")).path == "refs/heads/laplace"
  {
    var a := "laplace";
    assert a[0] == 'l';
    assert "refs/heads/" + a == "refs/heads/laplace";
  }

  lemma QualifiedExampleKept()
    ensures QualifiedFromRefLike(RefLike("refs/heads/pu")).path == "refs/heads/pu"
    ensures QualifiedFromRefLike(RefLike("refs/tags/v6.6.6")).path == "refs/tags/v6.6.6"
  {
    var b, c := "refs/heads/pu", "refs/tags/v6.6.6";
    assert b[..5] == "refs/" && c[..5] == "refs/";
  }

  // ---------------------------------------------------------------------------------------------
  // Rewrapping conversions

  /** `From<OneLevel> for RefLike`. */
  function OneLevelToRefLike(o: OneLevel): (r: RefLike)
    ensures r.path == o.path
    ensures !StartsWith(o.path, "refs/") ==> OneLevelFromRefLike(r) == o
  {
    RefLike(o.path)
  }

  /** `From<Qualified> for RefLike`. */
  function QualifiedToRefLike(q: Qualified): (r: RefLike)
    ensures r.path == q.path
    ensures StartsWith(q.path, "refs/") ==> QualifiedFromRefLike(r) == q
  {
    RefLike(q.path)
  }

  /** Qualifying loses nothing exactly when the name was qualified already. */
  lemma QualifiedRetract(r: RefLike)
    ensures QualifiedToRefLike(QualifiedFromRefLike(r)) == r <==> StartsWith(r.path, "refs/")
  {
  }

  /** Collapsing loses nothing exactly when the name was not qualified. */
  lemma OneLevelRetract(r: RefLike)
    ensures OneLevelToRefLike(OneLevelFromRefLike(r)) == r <==> !StartsWith(r.path, "refs/")
  {
    if StartsWith(r.path, "refs/") {
      assert |AfterCategory(r.path)| < |r.path|;
    }
  }

  /** `From<RefLike> for RefspecPattern` (and from `&RefLike`): a name is a pattern with no `*`. */
  function PatternFromRefLike(r: RefLike): (p: RefspecPattern)
    ensures p.path == r.path
    ensures NameShape(r.path) ==> PatternShape(p.path)
  {
    RefspecPattern(r.path)
  }

  /** `From<OneLevel> for RefspecPattern` (and from `&OneLevel`). */
  function PatternFromOneLevel(o: OneLevel): (p: RefspecPattern)
    ensures p.path == o.path
    ensures NameShape(o.path) ==> PatternShape(p.path)
  {
    RefspecPattern(o.path)
  }

  /** `From<Qualified> for RefspecPattern` (and from `&Qualified`). */
  function PatternFromQualified(q: Qualified): (p: RefspecPattern)
    ensures p.path == q.path
    ensures NameShape(q.path) ==> PatternShape(p.path)
  {
    RefspecPattern(q.path)
  }

  // ---------------------------------------------------------------------------------------------
  // RefspecPattern

  /** `RefspecPattern::append`: the `*` may end up in the middle, as when a name is appended to `refs/remotes/` followed by `*`. */
  function Append(self: RefspecPattern, refl: RefLike): (p: RefspecPattern)
    ensures p.path == self.path + "/" + refl.path
    ensures PatternShape(self.path) && NameShape(refl.path) ==> PatternShape(p.path)
  {
    ComponentsNonEmptyAppend(self.path, refl.path);
    RefspecPattern(self.path + "/" + refl.path)
  }
}
