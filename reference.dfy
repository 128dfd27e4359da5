/**
 * `radicle-git-types`' typed references: a category (`heads`, `rad`, `tags`, …), a name that is
 * either one refname (`One`) or a refspec pattern (`Many`), an optional remote and an optional
 * namespace, rendered into the layout
 * `refs[/namespaces/<namespace>/refs][/remotes/<remote>]/<category>/<name>`.
 *
 * Namespaces and remotes are kept abstract: rendering takes the conversions `nsText` and
 * `remoteText` into `RefLike` that the source gets from its `AsNamespace` and `AsRemote` bounds.
 */
module Reference {
  import opened Wrappers
  import opened Text
  import opened Check
  import opened Name

  // ---------------------------------------------------------------------------------------------
  // RefsCategory

  datatype RefsCategory = Heads | Rad | Tags | Notes | Cobs | Unknown(unknown: RefLike)

  /** The texts of the five named categories. */
  const KnownNames: set<string> := {"heads", "rad", "tags", "notes", "cobs"}

  /** `Display for RefsCategory`. */
  function Display(c: RefsCategory): (s: string)
    ensures c == Heads ==> s == "heads"
    ensures c == Rad ==> s == "rad"
    ensures c == Tags ==> s == "tags"
    ensures c == Notes ==> s == "notes"
    ensures c == Cobs ==> s == "cobs"
    ensures c.Unknown? ==> s == c.unknown.path
    ensures !c.Unknown? ==> s in KnownNames
  {
    match c
    case Heads => "heads"
    case Rad => "rad"
    case Tags => "tags"
    case Notes => "notes"
    case Cobs => "cobs"
    case Unknown(r) => r.path
  }

  /** The categories every parse gives back: an `Unknown` never carries one of the five names. */
  predicate Normal(c: RefsCategory) {
    c.Unknown? ==> c.unknown.path !in KnownNames
  }

  /** `RefsCategory::default_categories`. */
  function DefaultCategories(): (cs: seq<RefsCategory>)
    ensures |cs| == 3
    ensures forall i :: 0 <= i < |cs| ==> !cs[i].Unknown? && Normal(cs[i])
    ensures Display(cs[0]) == "heads" && Display(cs[1]) == "tags" && Display(cs[2]) == "notes"
  {
    [Heads, Tags, Notes]
  }

  /** `From<&RefLike> for RefsCategory` (and from `RefLike`): the five names, anything else unknown. */
  function FromRefLike(r: RefLike): (c: RefsCategory)
    ensures Display(c) == r.path
    ensures Normal(c)
    ensures c.Unknown? <==> r.path !in KnownNames
  {
    match r.path
    case "heads" => Heads
    case "rad" => Rad
    case "tags" => Tags
    case "notes" => Notes
    case "cobs" => Cobs
    case _ => Unknown(r)
  }

  /** `RefsCategory::from_str`: the five names without validation, anything else validated as a
      `RefLike`. */
  function FromStr(fmt: RefFormat, s: string): (r: Result<RefsCategory, Error>)
    ensures s in KnownNames ==> r.Success?
    ensures s !in KnownNames ==> (r.Success? <==> fmt(RefLikeOptions, s).Pass?)
    ensures r.Success? ==> Display(r.value) == s && Normal(r.value)
    ensures r.Failure? ==> r.error == RefFormat(fmt(RefLikeOptions, s).error)
  {
    match s
    case "heads" => Success(Heads)
    case "rad" => Success(Rad)
    case "tags" => Success(Tags)
    case "notes" => Success(Notes)
    case "cobs" => Success(Cobs)
    case other =>
      match RefLikeTryFromStr(fmt, other)
      case Success(reflike) => Success(Unknown(reflike))
      case Failure(e) => Failure(e)
  }

  /** Parsing the displayed text gives the category back. */
  lemma FromStrDisplay(fmt: RefFormat, c: RefsCategory)
    requires Normal(c)
    requires c.Unknown? ==> fmt(RefLikeOptions, c.unknown.path).Pass?
    ensures FromStr(fmt, Display(c)) == Success(c)
    ensures FromRefLike(RefLike(Display(c))) == c
  {
  }

  /** The two parsers agree wherever the text parses. */
  lemma FromStrAgrees(fmt: RefFormat, s: string)
    requires FromStr(fmt, s).Success?
    ensures FromStr(fmt, s).value == FromRefLike(RefLike(s))
  {
  }

  /** `From<&RefsCategory> for RefLike` (and from `RefsCategory`): the displayed text, re-validated;
      the source unwraps the validation, so it demands that the text pass. */
  function CategoryToRefLike(fmt: RefFormat, c: RefsCategory): (r: RefLike)
    requires fmt(RefLikeOptions, Display(c)).Pass?
    ensures r.path == Display(c)
    ensures Normal(c) ==> FromRefLike(r) == c
  {
    DisplayParsesBack(c);
    RefLikeTryFromStr(fmt, Display(c)).value
  }

  lemma DisplayParsesBack(c: RefsCategory)
    ensures Normal(c) ==> FromRefLike(RefLike(Display(c))) == c
  {
  }

  // ---------------------------------------------------------------------------------------------
  // Reference

  /** `Reference<Namespace, Remote, Cardinality>`; the cardinality is `RefLike` for `One` and
      `RefspecPattern` for `Many`. */
  datatype Reference<N, R, C> = Reference(remote: Option<R>, category: RefsCategory, name: C, namespace: Option<N>)

  /** `Reference::with_remote`. */
  function WithRemote<N, R, C>(self: Reference<N, R, C>, remote: Option<R>): (r: Reference<N, R, C>)
    ensures r.remote == remote
    ensures r.category == self.category && r.name == self.name && r.namespace == self.namespace
  {
    self.(remote := remote)
  }

  /** `Reference::with_namespace`: the namespace may change type. */
  function WithNamespace<N, R, C, M>(self: Reference<N, R, C>, namespace: Option<M>): (r: Reference<M, R, C>)
    ensures r.namespace == namespace
    ensures r.category == self.category && r.name == self.name && r.remote == self.remote
  {
    Reference(self.remote, self.category, self.name, namespace)
  }

  /** `Reference::with_name`. */
  function WithName<N, R, C>(self: Reference<N, R, C>, name: C): (r: Reference<N, R, C>)
    ensures r.name == name
    ensures r.category == self.category && r.remote == self.remote && r.namespace == self.namespace
  {
    self.(name := name)
  }

  /** Each setter overrides what was set before and setting a field to itself changes nothing. */
  lemma SettersOverride<N, R, C, M>(r: Reference<N, R, C>, a: Option<R>, b: Option<R>, x: C, y: C, m: Option<M>, n: Option<N>)
    ensures WithRemote(WithRemote(r, a), b) == WithRemote(r, b) && WithRemote(r, r.remote) == r
    ensures WithName(WithName(r, x), y) == WithName(r, y) && WithName(r, r.name) == r
    ensures WithNamespace(WithNamespace(r, m), n) == WithNamespace(r, n) && WithNamespace(r, r.namespace) == r
    ensures WithName(WithRemote(r, a), x) == WithRemote(WithName(r, x), a)
  {
  }

  /**
   * A `Reference` held in place, for the `&mut self` setters.
   */
  class ReferenceCell<N, R, C> {
    var remote: Option<R>
    var category: RefsCategory
    var name: C
    var namespace: Option<N>

    function Value(): Reference<N, R, C>
      reads this
    {
      Reference(remote, category, name, namespace)
    }

    constructor (r: Reference<N, R, C>)
      ensures Value() == r
    {
      remote, category, name, namespace := r.remote, r.category, r.name, r.namespace;
    }

    /** `Reference::set_remote`. */
    method SetRemote(r: Option<R>)
      modifies this
      ensures Value() == WithRemote(old(Value()), r)
    {
      remote := r;
    }

    /** `Reference::remote`: `set_remote`, handing back the same reference for chaining. */
    method Remote(r: Option<R>) returns (self: ReferenceCell<N, R, C>)
      modifies this
      ensures self == this
      ensures Value() == WithRemote(old(Value()), r)
    {
      SetRemote(r);
      self := this;
    }

    /** `Reference::set_name`. */
    method SetName(n: C)
      modifies this
      ensures Value() == WithName(old(Value()), n)
    {
      name := n;
    }

    /** `Reference::name`: `set_name`, handing back the same reference for chaining. */
    method Name(n: C) returns (self: ReferenceCell<N, R, C>)
      modifies this
      ensures self == this
      ensures Value() == WithName(old(Value()), n)
    {
      SetName(n);
      self := this;
    }
  }

  // ---------------------------------------------------------------------------------------------
  // Rendering

  /** `refs`, then `/namespaces/<namespace>/refs` and `/remotes/<remote>` when they are present. */
  function ScopeText<N, R>(nsText: N -> RefLike, remoteText: R -> RefLike, namespace: Option<N>, remote: Option<R>): string {
    var base := "refs";
    var namespaced := if namespace.Some? then base + "/" + "namespaces" + "/" + nsText(namespace.value).path + "/" + "refs" else base;
    if remote.Some? then namespaced + "/" + "remotes" + "/" + remoteText(remote.value).path else namespaced
  }

  /** The documented text of a `One` reference: the scope, the category, and the name with any
      leading `refs/<category>/` removed. */
  function OneText<N, R>(nsText: N -> RefLike, remoteText: R -> RefLike, r: Reference<N, R, RefLike>): string {
    ScopeText(nsText, remoteText, r.namespace, r.remote) + "/" + Display(r.category) + "/" + OneLevelFromRefLike(r.name).path
  }

  /** The documented text of a `Many` reference: the scope, the category and the pattern. */
  function ManyText<N, R>(nsText: N -> RefLike, remoteText: R -> RefLike, r: Reference<N, R, RefspecPattern>): string {
    ScopeText(nsText, remoteText, r.namespace, r.remote) + "/" + Display(r.category) + "/" + r.name.path
  }

  /** The common prefix of both renderings, built by joining as the source does. */
  method ScopeRefLike<N, R>(nsText: N -> RefLike, remoteText: R -> RefLike, namespace: Option<N>, remote: Option<R>)
    returns (refl: RefLike)
    ensures refl.path == ScopeText(nsText, remoteText, namespace, remote)
  {
    refl := RefLike("refs");
    if namespace.Some? {
      refl := Name.Join(Name.Join(Name.Join(refl, RefLike("namespaces")), nsText(namespace.value)), RefLike("refs"));
    }
    if remote.Some? {
      refl := Name.Join(Name.Join(refl, RefLike("remotes")), remoteText(remote.value));
    }
  }

  /** `From<&Reference<N, R, One>> for RefLike`, which is also what `Display` writes. */
  method ToRefLike<N, R>(fmt: RefFormat, nsText: N -> RefLike, remoteText: R -> RefLike, r: Reference<N, R, RefLike>)
    returns (refl: RefLike)
    requires fmt(RefLikeOptions, Display(r.category)).Pass?
    ensures refl.path == OneText(nsText, remoteText, r)
  {
    refl := ScopeRefLike(nsText, remoteText, r.namespace, r.remote);
    refl := Name.Join(Name.Join(refl, CategoryToRefLike(fmt, r.category)), OneLevelToRefLike(OneLevelFromRefLike(r.name)));
  }

  /** `From<&Reference<N, R, One>> for RefspecPattern`. */
  method OneToPattern<N, R>(fmt: RefFormat, nsText: N -> RefLike, remoteText: R -> RefLike, r: Reference<N, R, RefLike>)
    returns (pat: RefspecPattern)
    requires fmt(RefLikeOptions, Display(r.category)).Pass?
    ensures pat.path == OneText(nsText, remoteText, r)
  {
    var refl := ToRefLike(fmt, nsText, remoteText, r);
    pat := PatternFromRefLike(refl);
  }

  /** `From<&Reference<N, R, Many>> for RefspecPattern`, which is also what `Display` writes. */
  method ToPattern<N, R>(fmt: RefFormat, nsText: N -> RefLike, remoteText: R -> RefLike, r: Reference<N, R, RefspecPattern>)
    returns (pat: RefspecPattern)
    requires fmt(RefLikeOptions, Display(r.category)).Pass?
    ensures pat.path == ManyText(nsText, remoteText, r)
  {
    var refl := ScopeRefLike(nsText, remoteText, r.namespace, r.remote);
    pat := WithPatternSuffix(Name.Join(refl, CategoryToRefLike(fmt, r.category)), r.name);
  }

  // ---------------------------------------------------------------------------------------------
  // Properties of the layout

  /** Every rendering is qualified. */
  lemma RenderedQualified<N, R>(nsText: N -> RefLike, remoteText: R -> RefLike, one: Reference<N, R, RefLike>, many: Reference<N, R, RefspecPattern>)
    ensures StartsWith(OneText(nsText, remoteText, one), "refs/")
    ensures StartsWith(ManyText(nsText, remoteText, many), "refs/")
  {
    var s1 := ScopeText(nsText, remoteText, one.namespace, one.remote) + "/";
    ScopeQualified(nsText, remoteText, one.namespace, one.remote);
    StartsWithExtend(s1, Display(one.category), "refs/");
    StartsWithExtend(s1 + Display(one.category), "/", "refs/");
    StartsWithExtend(s1 + Display(one.category) + "/", OneLevelFromRefLike(one.name).path, "refs/");
    var s2 := ScopeText(nsText, remoteText, many.namespace, many.remote) + "/";
    ScopeQualified(nsText, remoteText, many.namespace, many.remote);
    StartsWithExtend(s2, Display(many.category), "refs/");
    StartsWithExtend(s2 + Display(many.category), "/", "refs/");
    StartsWithExtend(s2 + Display(many.category) + "/", many.name.path, "refs/");
  }

  lemma ScopeQualified<N, R>(nsText: N -> RefLike, remoteText: R -> RefLike, namespace: Option<N>, remote: Option<R>)
    ensures StartsWith(ScopeText(nsText, remoteText, namespace, remote) + "/", "refs/")
  {
    var base, namespaces, remotes := "refs", "namespaces", "remotes";
    var p := base + "/";
    assert StartsWith(p, "refs/");
    var s := base;
    if namespace.Some? {
      var ns := nsText(namespace.value).path;
      StartsWithExtend(p, namespaces, "refs/");
      StartsWithExtend(p + namespaces, "/", "refs/");
      StartsWithExtend(p + namespaces + "/", ns, "refs/");
      StartsWithExtend(p + namespaces + "/" + ns, "/", "refs/");
      StartsWithExtend(p + namespaces + "/" + ns + "/", base, "refs/");
      s := p + namespaces + "/" + ns + "/" + base;
      StartsWithExtend(s, "/", "refs/");
    }
    if remote.Some? {
      var rm := remoteText(remote.value).path;
      StartsWithExtend(s + "/", remotes, "refs/");
      StartsWithExtend(s + "/" + remotes, "/", "refs/");
      StartsWithExtend(s + "/" + remotes + "/", rm, "refs/");
      StartsWithExtend(s + "/" + remotes + "/" + rm, "/", "refs/");
    }
  }

  /** A name that is already qualified with its category renders as if it were not. */
  lemma QualifiedNameRendersOnce<N, R>(nsText: N -> RefLike, remoteText: R -> RefLike, r: Reference<N, R, RefLike>, rest: string)
    requires !StartsWith(rest, "refs/")
    requires r.name.path == "refs/" + Display(r.category) + "/" + rest
    requires '/' !in Display(r.category)
    ensures OneText(nsText, remoteText, r) == OneText(nsText, remoteText, WithName(r, RefLike(rest)))
  {
    OneLevelDropsCategory(Display(r.category), rest);
  }

  // ---------------------------------------------------------------------------------------------
  // Structure of the layout

  lemma JoinShape(a: string, b: string)
    requires NameShape(a) && NameShape(b)
    ensures NameShape(a + "/" + b)
  {
    JoinComponents(RefLike(a), RefLike(b));
  }

  /** The scope is a valid name when the namespace and remote texts are. */
  lemma ScopeShape<N, R>(nsText: N -> RefLike, remoteText: R -> RefLike, namespace: Option<N>, remote: Option<R>)
    requires namespace.Some? ==> NameShape(nsText(namespace.value).path)
    requires remote.Some? ==> NameShape(remoteText(remote.value).path)
    ensures NameShape(ScopeText(nsText, remoteText, namespace, remote))
  {
    var base, remotes := "refs", "remotes";
    OneComponentShape(base);
    var s := base;
    if namespace.Some? {
      NamespacedShape(base, nsText(namespace.value).path);
      s := base + "/" + "namespaces" + "/" + nsText(namespace.value).path + "/" + base;
    }
    if remote.Some? {
      OneComponentShape(remotes);
      JoinShape(s, remotes);
      JoinShape(s + "/" + remotes, remoteText(remote.value).path);
    }
  }

  lemma NamespacedShape(base: string, ns: string)
    requires base == "refs" && NameShape(ns)
    ensures NameShape(base + "/" + "namespaces" + "/" + ns + "/" + base)
  {
    var namespaces := "namespaces";
    OneComponentShape(base);
    OneComponentShape(namespaces);
    JoinShape(base, namespaces);
    JoinShape(base + "/" + namespaces, ns);
    JoinShape(base + "/" + namespaces + "/" + ns, base);
  }

  /** The rendering of a `One` reference has the shape of a valid name when its parts do: this is
      the part of validity the joins keep (not the length limit). */
  lemma OneTextShape<N, R>(nsText: N -> RefLike, remoteText: R -> RefLike, r: Reference<N, R, RefLike>)
    requires r.namespace.Some? ==> NameShape(nsText(r.namespace.value).path)
    requires r.remote.Some? ==> NameShape(remoteText(r.remote.value).path)
    requires NameShape(Display(r.category))
    requires NameShape(OneLevelFromRefLike(r.name).path)
    ensures NameShape(OneText(nsText, remoteText, r))
  {
    var scope := ScopeText(nsText, remoteText, r.namespace, r.remote);
    ScopeShape(nsText, remoteText, r.namespace, r.remote);
    JoinComponents(RefLike(scope), RefLike(Display(r.category)));
    JoinComponents(RefLike(scope + "/" + Display(r.category)), RefLike(OneLevelFromRefLike(r.name).path));
  }

  /** The rendering of a `Many` reference is a valid pattern when its parts are, and it has exactly
      the `*` of its name. */
  lemma ManyTextShape<N, R>(nsText: N -> RefLike, remoteText: R -> RefLike, r: Reference<N, R, RefspecPattern>)
    requires r.namespace.Some? ==> NameShape(nsText(r.namespace.value).path)
    requires r.remote.Some? ==> NameShape(remoteText(r.remote.value).path)
    requires NameShape(Display(r.category))
    requires PatternShape(r.name.path)
    ensures PatternShape(ManyText(nsText, remoteText, r))
    ensures StarCount(ManyText(nsText, remoteText, r)) == StarCount(r.name.path)
  {
    var scope := ScopeText(nsText, remoteText, r.namespace, r.remote);
    ScopeShape(nsText, remoteText, r.namespace, r.remote);
    JoinComponents(RefLike(scope), RefLike(Display(r.category)));
    var prefix := scope + "/" + Display(r.category);
    ComponentsNonEmptyAppend(prefix, r.name.path);
    StarCountJoin(prefix, r.name.path);
  }

  /** Without namespace and remote, `from_qualified` reads the category and the name back from the
      rendering of a single-component category. */
  lemma OneTextParsesBack<N, R>(nsText: N -> RefLike, remoteText: R -> RefLike, r: Reference<N, R, RefLike>)
    requires r.namespace.None? && r.remote.None?
    requires Normal(r.category) && '/' !in Display(r.category)
    ensures FromQualified(Qualified(OneText(nsText, remoteText, r))) == (OneLevelFromRefLike(r.name), Some(RefLike(Display(r.category))))
    ensures FromRefLike(RefLike(Display(r.category))) == r.category
  {
    var o, c := OneLevelFromRefLike(r.name), RefLike(Display(r.category));
    var refs := "refs";
    assert ScopeText(nsText, remoteText, r.namespace, r.remote) == refs;
    assert IntoQualified(o, c) == Qualified(OneText(nsText, remoteText, r)) by {
      RefsSlash(refs, c.path + "/" + o.path);
    }
    FromQualifiedOfIntoQualified(o, c);
    DisplayParsesBack(r.category);
  }

  lemma RefsSlash(refs: string, rest: string)
    requires refs == "refs"
    ensures "refs/" + rest == refs + "/" + rest
  {
  }

  /** With a remote and no namespace, `from_qualified` sees `remotes` as the category. */
  lemma RemoteTextParsesAsRemotes<N, R>(nsText: N -> RefLike, remoteText: R -> RefLike, r: Reference<N, R, RefLike>)
    requires r.namespace.None? && r.remote.Some?
    ensures FromQualified(Qualified(OneText(nsText, remoteText, r))).1 == Some(RefLike("remotes"))
  {
    var m, tail := remoteText(r.remote.value).path, "/" + Display(r.category) + "/" + OneLevelFromRefLike(r.name).path;
    assert OneText(nsText, remoteText, r) == "refs" + "/" + "remotes" + "/" + m + tail;
    RemotesParse(m, tail);
  }

  lemma RemotesParse(m: string, tail: string)
    ensures FromQualified(Qualified("refs" + "/" + "remotes" + "/" + m + tail)).1 == Some(RefLike("remotes"))
  {
    var remotes, rest := "remotes", m + tail;
    assert "refs" + "/" + remotes + "/" + m + tail == "refs/" + remotes + "/" + rest;
    FromQualifiedOfIntoQualified(OneLevel(rest), RefLike(remotes));
  }

  // ---------------------------------------------------------------------------------------------
  // Constructors for well-known references

  /** `Reference::rad_id`. */
  function RadId<N, R>(namespace: Option<N>): Reference<N, R, RefLike> {
    Reference(None, Rad, RefLike("id"), namespace)
  }

  /** `Reference::rad_signed_refs`. */
  function RadSignedRefs<N, R>(namespace: Option<N>, remote: Option<R>): Reference<N, R, RefLike> {
    Reference(remote, Rad, RefLike("signed_refs"), namespace)
  }

  /** `Reference::rad_self`. */
  function RadSelf<N, R>(namespace: Option<N>, remote: Option<R>): Reference<N, R, RefLike> {
    Reference(remote, Rad, RefLike("self"), namespace)
  }

  /** `Reference::head`. */
  function Head<N, R>(namespace: Option<N>, remote: Option<R>, name: RefLike): Reference<N, R, RefLike> {
    Reference(remote, Heads, name, namespace)
  }

  /** `Reference::tag`. */
  function Tag<N, R>(namespace: Option<N>, remote: Option<R>, name: RefLike): Reference<N, R, RefLike> {
    Reference(remote, Tags, name, namespace)
  }

  /** `Reference::rad_ids_glob`. */
  function RadIdsGlob<N, R>(namespace: Option<N>): Reference<N, R, RefspecPattern> {
    Reference(None, Rad, RefspecPattern("ids/*"), namespace)
  }

  /** `Reference::heads`. */
  function HeadsGlob<N, R>(namespace: Option<N>, remote: Option<R>): Reference<N, R, RefspecPattern> {
    Reference(remote, Heads, RefspecPattern("*"), namespace)
  }

  /** `Reference::rads`. */
  function RadsGlob<N, R>(namespace: Option<N>, remote: Option<R>): Reference<N, R, RefspecPattern> {
    Reference(remote, Rad, RefspecPattern("*"), namespace)
  }

  /** `Reference::tags`. */
  function TagsGlob<N, R>(namespace: Option<N>, remote: Option<R>): Reference<N, R, RefspecPattern> {
    Reference(remote, Tags, RefspecPattern("*"), namespace)
  }

  /** `Reference::notes`. */
  function NotesGlob<N, R>(namespace: Option<N>, remote: Option<R>): Reference<N, R, RefspecPattern> {
    Reference(remote, Notes, RefspecPattern("*"), namespace)
  }

  /** `Reference::cob`. */
  function CobsGlob<N, R>(namespace: Option<N>, remote: Option<R>): Reference<N, R, RefspecPattern> {
    Reference(remote, Cobs, RefspecPattern("*"), namespace)
  }

  /** A name that is not qualified is rendered as it is. */
  lemma OneTextOfUnqualified<N, R>(nsText: N -> RefLike, remoteText: R -> RefLike, r: Reference<N, R, RefLike>)
    requires !StartsWith(r.name.path, "refs/")
    ensures OneText(nsText, remoteText, r) == ScopeText(nsText, remoteText, r.namespace, r.remote) + "/" + Display(r.category) + "/" + r.name.path
  {
  }

  /** Appending `/<category>/<name>` to a text. */
  lemma AppendTwo(scope: string, category: string, name: string)
    ensures scope + "/" + category + "/" + name == scope + ("/" + category + "/" + name)
  {
  }

  /** `refs[/namespaces/<namespace>/refs]/rad/id`. */
  lemma RadIdLayout<N, R>(nsText: N -> RefLike, remoteText: R -> RefLike, namespace: Option<N>)
    ensures OneText(nsText, remoteText, RadId<N, R>(namespace)) == ScopeText(nsText, remoteText, namespace, None) + "/rad/id"
  {
    var r := RadId<N, R>(namespace);
    OneTextOfUnqualified(nsText, remoteText, r);
    AppendTwo(ScopeText(nsText, remoteText, namespace, None), "rad", "id");
  }

  /** `refs[/namespaces/<namespace>/refs][/remotes/<remote>]/rad/signed_refs`. */
  lemma RadSignedRefsLayout<N, R>(nsText: N -> RefLike, remoteText: R -> RefLike, namespace: Option<N>, remote: Option<R>)
    ensures OneText(nsText, remoteText, RadSignedRefs(namespace, remote)) == ScopeText(nsText, remoteText, namespace, remote) + "/rad/signed_refs"
  {
    var r := RadSignedRefs(namespace, remote);
    assert r.name.path[0] == 's';
    OneTextOfUnqualified(nsText, remoteText, r);
    AppendTwo(ScopeText(nsText, remoteText, namespace, remote), "rad", "signed_refs");
  }

  /** `refs[/namespaces/<namespace>/refs][/remotes/<remote>]/rad/self`. */
  lemma RadSelfLayout<N, R>(nsText: N -> RefLike, remoteText: R -> RefLike, namespace: Option<N>, remote: Option<R>)
    ensures OneText(nsText, remoteText, RadSelf(namespace, remote)) == ScopeText(nsText, remoteText, namespace, remote) + "/rad/self"
  {
    var r := RadSelf(namespace, remote);
    OneTextOfUnqualified(nsText, remoteText, r);
    AppendTwo(ScopeText(nsText, remoteText, namespace, remote), "rad", "self");
  }

  /** `refs[/namespaces/<namespace>/refs][/remotes/<remote>]/heads/<name>`. */
  lemma HeadLayout<N, R>(nsText: N -> RefLike, remoteText: R -> RefLike, namespace: Option<N>, remote: Option<R>, name: RefLike)
    requires !StartsWith(name.path, "refs/")
    ensures OneText(nsText, remoteText, Head(namespace, remote, name)) == ScopeText(nsText, remoteText, namespace, remote) + "/heads/" + name.path
  {
    var r := Head(namespace, remote, name);
    OneTextOfUnqualified(nsText, remoteText, r);
    var scope := ScopeText(nsText, remoteText, namespace, remote);
    AppendTwo(scope, "heads", name.path);
    assert "/" + "heads" + "/" + name.path == "/heads/" + name.path;
  }

  /** A branch name given as `refs/heads/<name>` renders as `<name>` does. */
  lemma HeadRendersQualifiedName<N, R>(nsText: N -> RefLike, remoteText: R -> RefLike, namespace: Option<N>, remote: Option<R>, name: RefLike)
    requires !StartsWith(name.path, "refs/")
    ensures OneText(nsText, remoteText, Head(namespace, remote, RefLike("refs/heads/" + name.path))) == OneText(nsText, remoteText, Head(namespace, remote, name))
  {
    var r := Head(namespace, remote, name);
    QualifiedNameRendersOnce(nsText, remoteText, WithName(r, RefLike("refs/heads/" + name.path)), name.path);
  }

  /** `refs[/namespaces/<namespace>/refs][/remotes/<remote>]/tags/<name>`. */
  lemma TagLayout<N, R>(nsText: N -> RefLike, remoteText: R -> RefLike, namespace: Option<N>, remote: Option<R>, name: RefLike)
    requires !StartsWith(name.path, "refs/")
    ensures OneText(nsText, remoteText, Tag(namespace, remote, name)) == ScopeText(nsText, remoteText, namespace, remote) + "/tags/" + name.path
  {
    var r := Tag(namespace, remote, name);
    OneTextOfUnqualified(nsText, remoteText, r);
    var scope := ScopeText(nsText, remoteText, namespace, remote);
    AppendTwo(scope, "tags", name.path);
    assert "/" + "tags" + "/" + name.path == "/tags/" + name.path;
  }

  /** A tag name given as `refs/tags/<name>` renders as `<name>` does. */
  lemma TagRendersQualifiedName<N, R>(nsText: N -> RefLike, remoteText: R -> RefLike, namespace: Option<N>, remote: Option<R>, name: RefLike)
    requires !StartsWith(name.path, "refs/")
    ensures OneText(nsText, remoteText, Tag(namespace, remote, RefLike("refs/tags/" + name.path))) == OneText(nsText, remoteText, Tag(namespace, remote, name))
  {
    var r := Tag(namespace, remote, name);
    QualifiedNameRendersOnce(nsText, remoteText, WithName(r, RefLike("refs/tags/" + name.path)), name.path);
  }

  // `refs[/namespaces/<namespace>/refs]/rad/ids/*`.
  lemma RadIdsGlobLayout<N, R>(nsText: N -> RefLike, remoteText: R -> RefLike, namespace: Option<N>)
    ensures ManyText(nsText, remoteText, RadIdsGlob<N, R>(namespace)) == ScopeText(nsText, remoteText, namespace, None) + "/rad/ids/*"
  {
    AppendTwo(ScopeText(nsText, remoteText, namespace, None), "rad", "ids/*");
  }

  // `refs[/namespaces/<namespace>/refs][/remotes/<remote>]/<category>/*` for the five globs.
  lemma GlobLayouts<N, R>(nsText: N -> RefLike, remoteText: R -> RefLike, namespace: Option<N>, remote: Option<R>)
    ensures ManyText(nsText, remoteText, HeadsGlob(namespace, remote)) == ScopeText(nsText, remoteText, namespace, remote) + "/heads/*"
    ensures ManyText(nsText, remoteText, RadsGlob(namespace, remote)) == ScopeText(nsText, remoteText, namespace, remote) + "/rad/*"
    ensures ManyText(nsText, remoteText, TagsGlob(namespace, remote)) == ScopeText(nsText, remoteText, namespace, remote) + "/tags/*"
    ensures ManyText(nsText, remoteText, NotesGlob(namespace, remote)) == ScopeText(nsText, remoteText, namespace, remote) + "/notes/*"
    ensures ManyText(nsText, remoteText, CobsGlob(namespace, remote)) == ScopeText(nsText, remoteText, namespace, remote) + "/cobs/*"
  {
    var scope := ScopeText(nsText, remoteText, namespace, remote);
    AppendTwo(scope, "heads", "*");
    AppendTwo(scope, "rad", "*");
    AppendTwo(scope, "tags", "*");
    AppendTwo(scope, "notes", "*");
    AppendTwo(scope, "cobs", "*");
  }

  /** A branch without namespace or remote. */
  lemma RenderExamplePlain(name: RefLike)
    requires name.path == "feature/x"
    ensures OneText<RefLike, RefLike>(n => n, m => m, Head(None, None, name)) == "refs/heads/feature/x"
  {
    assert name.path[0] == 'f';
    HeadLayout<RefLike, RefLike>(n => n, m => m, None, None, name);
  }

  /** The same branch in namespace `ns`, as seen from remote `peer`. */
  lemma RenderExampleScoped(name: RefLike, ns: RefLike, peer: RefLike)
    requires name.path == "feature/x" && ns.path == "ns" && peer.path == "peer"
    ensures OneText<RefLike, RefLike>(n => n, m => m, Head(Some(ns), Some(peer), name))
      == "refs/namespaces/ns/refs/remotes/peer/heads/feature/x"
  {
    assert name.path[0] == 'f';
    HeadLayout<RefLike, RefLike>(n => n, m => m, Some(ns), Some(peer), name);
    ScopeExample(ns, peer);
    SuffixExample("refs/namespaces/ns/refs/remotes/peer", name.path);
  }

  lemma ScopeExample(ns: RefLike, peer: RefLike)
    requires ns.path == "ns" && peer.path == "peer"
    ensures ScopeText<RefLike, RefLike>(n => n, m => m, Some(ns), Some(peer)) == "refs/namespaces/ns/refs/remotes/peer"
  {
    var namespaced := "refs" + "/" + "namespaces" + "/" + ns.path + "/" + "refs";
    assert namespaced == "refs/namespaces/ns/refs";
    assert namespaced + "/" + "remotes" + "/" + peer.path == "refs/namespaces/ns/refs/remotes/peer";
  }

  lemma SuffixExample(scope: string, name: string)
    requires scope == "refs/namespaces/ns/refs/remotes/peer" && name == "feature/x"
    ensures scope + "/heads/" + name == "refs/namespaces/ns/refs/remotes/peer/heads/feature/x"
  {
  }

  // ---------------------------------------------------------------------------------------------
  // SymbolicRef

  /** `SymbolicRef`: `source` is the reference to create, `target` the existing one it points to;
      `force` is `Force::True`. */
  datatype SymbolicRef<S, T> = SymbolicRef(source: S, target: T, force: bool)

  /** `Reference::symbolic_ref`: `self` becomes the target. */
  function SymbolicRefOf<N, R, SN, SR>(self: Reference<N, R, RefLike>, source: Reference<SN, SR, RefLike>, force: bool)
    : (s: SymbolicRef<Reference<SN, SR, RefLike>, Reference<N, R, RefLike>>)
    ensures s.target == self && s.source == source && s.force == force
  {
    SymbolicRef(source, self, force)
  }
}
