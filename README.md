# Refnames, typed references and reference iterators of radicle-git, in Dafny

This project models three parts of radicle-git and proves properties about them.

- **`radicle-git-ext`'s refname wrappers** (`reference/name.rs`):
  - There are four wrappers, each around one string. `RefLike` is a valid git refname. `OneLevel` is a refname with its `refs/<category>/` removed. `Qualified` is a refname that starts with `refs/`. `RefspecPattern` is a refname that may hold one `*`.
  - The validated constructors check text or UTF-8 bytes. The total conversions rewrap the text.
  - The model also covers `join`, `with_pattern_suffix`, `strip_prefix`, `append`, collecting into a `RefLike`, and `percent_encode`.
- **`radicle-git-types`' typed references** (`reference.rs`):
  - A `RefsCategory` is one of `heads`, `rad`, `tags`, `notes`, `cobs`, or an unknown name.
  - A `Reference` has a category, a name, an optional remote and an optional namespace.
  - Its rendering follows the layout `refs[/namespaces/<ns>/refs][/remotes/<remote>]/<category>/<name>`.
  - The model also covers the setters, the factories for well-known references, and `SymbolicRef`.
- **`radicle-surf`'s reference iterators** (`git/repo/iter.rs`):
  - `Tags`, `TagNames`, `Branches` and `BranchNames` drain a list of `git2::References` cursors one after another, and convert every reference they yield.
  - `Namespaces` hands out a set of namespaces in ascending order.

Modules (one file each):

- `Wrappers` holds `Option`, `Result` and `Outcome`.
- `Text` holds the meaning of Rust's `starts_with`, `split('/')` and `join("/")`, with their laws.
- `Utf8` is UTF-8 as in RFC 3629, which is what `str::from_utf8` accepts. Encoding and decoding are proved to invert each other.
- `Check` holds the interface of the ref-format validator.
- `Name` holds the wrappers.
- `Percent` holds percent encoding.
- `Reference` holds typed references.
- `Iter` holds the iterators.

Modelling choices:

- **The validator.** `check::ref_format` is not part of this model. It is a parameter `fmt: (Options, string) -> Outcome<CheckError>`. The predicate `Check.Conforms(fmt)` gathers the facts of the `git-check-ref-format` grammar that lemmas rely on:
  - no empty component;
  - no `*` in a name, and at most one `*` in a pattern;
  - a `/` unless one-level names are allowed.

  Every lemma that needs these facts requires `Conforms`. `NameShape` and `PatternShape` are the parts of validity the proofs reason about. The proofs show that `join`, `with_pattern_suffix`, `append`, qualifying, collecting and rendering all keep the shape the proofs track. They do not keep the 1024-byte length limit: see below.
- **Namespaces and remotes** stay abstract. Rendering takes the conversions `nsText` and `remoteText` to `RefLike`, which the source gets from its `AsNamespace` and `AsRemote` bounds.
- **The reference to convert** (`git2::Reference`) stays abstract too. The iterators take the conversion as a value: `Tag::try_from`, `tag::reference_name` followed by `refs/tags/`, `Branch::try_from`, or `Branch::try_from` followed by `refname`.
  - The four chained iterators share a single loop, so they are one class, `Iter.RefIter`, with the conversion as a constant field.
  - `Tags::next` (iter.rs:38-54), `TagNames::next` (60-77), `Branches::next` (105-121) and `BranchNames::next` (127-144) are all `Iter.RefIter.Next`. Their conversions are `Lift` of the respective function.
  - `push` and `names` are the same for both families.
- **The in-place setters** (`set_remote`, `remote`, `set_name`, `name`) act on the class `Reference.ReferenceCell`. The by-value builders (`with_remote`, `with_namespace`, `with_name`) are functions on the `Reference` datatype.
- **The trivial views** (`as_str`, `Deref`, `AsRef<str>`, `Display` of a wrapper, `From<X> for String`) hand out the wrapped text. That is the `path` field.

Behaviour of the code worth knowing, some of it different from what its documentation comments say. The model follows the code in each case.

- `strip_prefix(x, x)` fails with `NotPrefix`, not `ImproperPrefix`, because the base becomes `x/`. `ImproperPrefix` comes only from a `self` ending in `/`, which no valid name does. See `Name.StripPrefixErrors`.
- `OneLevel::from` drops the first two components of any text that starts with `refs/`, however many components follow. So `refs/heads` and `refs/HEAD` collapse to the empty text. See `Name.OneLevelOfTwoComponents`.
- Collecting no names gives the empty text, which is not a valid `RefLike`. See `Name.FromIterEmpty`.
- The documentation of `RefLike` (name.rs:53) limits a name to 1024 bytes. `join`, `with_pattern_suffix`, `append`, `Qualified::from` and the renderings never check that limit again. Joining two 600-byte names gives 1201 bytes (`Name.JoinLength`), and qualifying a 1020-byte name gives 1031 bytes (`Name.QualifiedLength`). The validator would reject such a result with `TooLong`, but the code never asks it.
- The documentation comments of `rad_signed_refs`, `rad_self`, `head` and `tag` show the remote part as `refs/remote/<peer_id>`. The rendering code writes `remotes`, and so does the model.
- `percent_encode` leaves `%` itself unencoded. Two different valid names can therefore share an encoding (`Percent.PercentEncodeNotInjective`), and decoding recovers the name only when it has no `%` (`Percent.PercentRoundTrip`).

## Model

| member | source | states |
|---|---|---|
| Name.RefLikeTryFromStr | radicle-git-ext/src/reference/name.rs:136-149 | succeeds exactly when the validator accepts the text with one-level names allowed and patterns refused; the value is the text itself; the failure carries the validator's error as `RefFormat`; a conforming validator yields only names with non-empty components and no `*` |
| Name.RefLikeTryFromBytes | radicle-git-ext/src/reference/name.rs:151-159 | invalid UTF-8 gives `Utf8`; a success is a name whose UTF-8 encoding is exactly the input bytes and which the validator accepts; a `RefFormat` failure is the validator's verdict on the decoded text |
| Name.PatternTryFromStr | radicle-git-ext/src/reference/name.rs:534-547 | as for names, with patterns allowed; a conforming validator yields at most one `*` |
| Name.PatternTryFromBytes | radicle-git-ext/src/reference/name.rs:549-557 | as for names: `Utf8` on bad bytes, success only for bytes that encode the accepted text |
| Name.TryFromBytesOfText | radicle-git-ext/src/reference/name.rs:151-159 | constructing from the UTF-8 bytes of a text gives exactly what constructing from the text gives, for names and patterns |
| Utf8.DecodeEncode | radicle-git-ext/src/reference/name.rs:155-156 | `from_utf8` accepts the encoding of every text and gives the text back |
| Utf8.EncodeDecode | radicle-git-ext/src/reference/name.rs:155-156 | whatever `from_utf8` accepts is the encoding of the text it returns |
| Name.PatternRejectsTwoStars | radicle-git-ext/src/reference/name.rs:486-490 | under a conforming validator a text with two or more `*` is neither a pattern nor a name |
| Name.Join | radicle-git-ext/src/reference/name.rs:65-68 | the joined text is the left text, one `/`, the right text |
| Name.JoinComponents | radicle-git-ext/src/reference/name.rs:65-68 | the components of a join are the left components followed by the right ones, and a join has the shape of a valid name exactly when both operands do (the shape the proofs track, not the length limit) |
| Name.JoinLength | radicle-git-ext/src/reference/name.rs:65-68 | the UTF-8 length of a join is the operands' lengths plus one, so `join` can leave the 1024-byte limit behind |
| Name.WithPatternSuffix | radicle-git-ext/src/reference/name.rs:70-73 | name, `/`, pattern; a name with the shape of a valid name followed by one with the shape of a valid pattern has the shape of a valid pattern |
| Name.TrimSlash | radicle-git-ext/src/reference/name.rs:84 | a base ending in `/` loses exactly that `/`; any other base is kept |
| Name.StripPrefix | radicle-git-ext/src/reference/name.rs:75-95 | a success is non-empty and joins back onto the trimmed base to give `self`; `NotPrefix` exactly when `self` does not start with the trimmed base and `/`; `ImproperPrefix` exactly when `self` is the trimmed base and `/` |
| Name.StripPrefixOfJoin | radicle-git-ext/src/reference/name.rs:75-95 | stripping `r` (with or without a trailing `/`) off `r.join(s)` gives `s` back |
| Name.StripPrefixErrors | radicle-git-ext/src/reference/name.rs:75-95 | for a valid name, stripping the name itself gives `NotPrefix`, and no base gives `ImproperPrefix` |
| Name.StripPrefixExampleSegment | radicle-git-ext/src/reference/name.rs:82-95 | the prefix must end at a component boundary: `refs/he` and `refs/tags` are not prefixes of `refs/heads/x` |
| Name.StripPrefixExampleBase | radicle-git-ext/src/reference/name.rs:82-95 | `refs/heads` and `refs/heads/` both strip off `refs/heads/x`, leaving `x` |
| Name.FromIter | radicle-git-ext/src/reference/name.rs:234-241 | collecting one name gives that name |
| Name.FromIterSnoc | radicle-git-ext/src/reference/name.rs:234-241 | collecting one more name is joining it onto what was collected |
| Name.FromIterShape | radicle-git-ext/src/reference/name.rs:234-241 | collecting one or more names with the shape of a valid name gives a name with that shape |
| Name.FromIterEmpty | radicle-git-ext/src/reference/name.rs:234-241 | collecting nothing gives the empty text |
| Text.JoinSplit | radicle-git-ext/src/reference/name.rs:364 | joining the pieces of `split('/')` with `/` gives the text back |
| Text.SplitJoin | radicle-git-ext/src/reference/name.rs:328-331 | splitting a join of slash-free pieces gives the pieces back |
| Name.DropTwoComponents | radicle-git-ext/src/reference/name.rs:364 | `split('/').skip(2)` joined by `/` is the text after the component that follows `refs/`, or the empty text when there is none |
| Name.OneLevelFromRefLike | radicle-git-ext/src/reference/name.rs:361-369 | a text starting with `refs/` loses `refs/` and the next component together with its `/`; any other text is kept as it is |
| Name.OneLevelFromQualified | radicle-git-ext/src/reference/name.rs:371-375 | collapsing a qualified name is collapsing its text |
| Name.OneLevelDropsCategory | radicle-git-ext/src/reference/name.rs:361-369 | `refs/<category>/<rest>` collapses to `<rest>` for a one-component category, whatever `<rest>` holds |
| Name.OneLevelOfTwoComponents | radicle-git-ext/src/reference/name.rs:361-369 | `refs/<category>` with nothing after it collapses to the empty text |
| Name.OneLevelExampleHeads | radicle-git-ext/src/reference/name.rs:263-266 | `refs/heads/next` collapses to `next` |
| Name.OneLevelExampleRemotes | radicle-git-ext/src/reference/name.rs:268-271 | `refs/remotes/origin/it` collapses to `origin/it` |
| Name.OneLevelExampleUnqualified | radicle-git-ext/src/reference/name.rs:273-276 | `mistress` collapses to itself |
| Name.OneLevelExampleLiteralPrefix | radicle-git-ext/src/reference/name.rs:363 | the qualification test is on the text: `refsx/heads/y` is kept as it is |
| Name.OneLevelExampleHead | radicle-git-ext/src/reference/name.rs:363-364 | `refs/HEAD` collapses to the empty text |
| Name.FromQualified | radicle-git-ext/src/reference/name.rs:319-340 | with a category, the category is a slash-free component and the unqualified text is category, `/`, name; without one, the unqualified text has no `/` and is the name; the `unreachable!()` arm is never taken |
| Name.IntoQualified | radicle-git-ext/src/reference/name.rs:342-344 | the result starts with `refs/` and, without it, is category, `/`, name |
| Name.IntoQualifiedOfFromQualified | radicle-git-ext/src/reference/name.rs:319-344 | re-qualifying what `from_qualified` split off gives the qualified name back |
| Name.FromQualifiedOfIntoQualified | radicle-git-ext/src/reference/name.rs:319-344 | `from_qualified` recovers the name and a one-component category from `into_qualified` |
| Name.FromQualifiedOneComponent | radicle-git-ext/src/reference/name.rs:335 | a single component after `refs/` is the name, and there is no category |
| Name.FromQualifiedExampleTags | radicle-git-ext/src/reference/name.rs:278-284 | `refs/tags/grace` gives name `grace` and category `tags` |
| Name.FromQualifiedExampleRemotes | radicle-git-ext/src/reference/name.rs:286-304 | `refs/remotes/origin/hopper` gives `origin/hopper` and `remotes`, and qualifying `origin/hopper` under `remotes` gives it back |
| Name.FromQualifiedExampleHead | radicle-git-ext/src/reference/name.rs:294-297 | `refs/HEAD` gives name `HEAD` and no category |
| Name.QualifiedFromRefLike | radicle-git-ext/src/reference/name.rs:452-460 | the result starts with `refs/`; a qualified text is kept, any other is put under `refs/heads/` |
| Name.QualifiedShape | radicle-git-ext/src/reference/name.rs:452-460 | qualifying keeps the shape of a valid name |
| Name.QualifiedLength | radicle-git-ext/src/reference/name.rs:452-460 | the default qualification adds exactly the eleven bytes of `refs/heads/`, with no check of the limit |
| Name.QualifiedFromOneLevel | radicle-git-ext/src/reference/name.rs:462-466 | a collapsed name is qualified by the same rule as its text |
| Name.QualifiedIdempotent | radicle-git-ext/src/reference/name.rs:452-472 | qualifying a qualified name changes nothing |
| Name.OneLevelOfQualified | radicle-git-ext/src/reference/name.rs:452-466 | collapsing after qualifying is collapsing |
| Name.OneLevelQualifiedRoundTrip | radicle-git-ext/src/reference/name.rs:249-255 | a collapsed name not starting with `refs/` survives qualifying and collapsing again, so accepting one spelling for the other loses nothing |
| Name.QualifiedExampleDefault | radicle-git-ext/src/reference/name.rs:409-412 | `laplace` qualifies to `refs/heads/laplace` |
| Name.QualifiedExampleKept | radicle-git-ext/src/reference/name.rs:414-422 | `refs/heads/pu` and `refs/tags/v6.6.6` are kept |
| Name.OneLevelToRefLike | radicle-git-ext/src/reference/name.rs:377-381 | the text is kept, and collapsing it again gives the same collapsed name when it is not qualified |
| Name.QualifiedToRefLike | radicle-git-ext/src/reference/name.rs:468-472 | the text is kept, and qualifying it again gives the same qualified name |
| Name.QualifiedRetract | radicle-git-ext/src/reference/name.rs:452-472 | qualifying then unwrapping gives the name back exactly when it was qualified already |
| Name.OneLevelRetract | radicle-git-ext/src/reference/name.rs:361-381 | collapsing then unwrapping gives the name back exactly when it was not qualified |
| Name.PatternFromRefLike | radicle-git-ext/src/reference/name.rs:589-599 | the text is kept, and the shape of a valid name is the shape of a valid pattern |
| Name.PatternFromOneLevel | radicle-git-ext/src/reference/name.rs:601-611 | the same, for collapsed names |
| Name.PatternFromQualified | radicle-git-ext/src/reference/name.rs:613-623 | the same, for qualified names |
| Name.Append | radicle-git-ext/src/reference/name.rs:502-507 | pattern, `/`, name; it keeps the shape of a valid pattern |
| Percent.EncodeByte | radicle-git-ext/src/reference/name.rs:101-119 | a byte in the path set or outside ASCII becomes `%` and two upper-case hexadecimal digits of its value; every other byte stands for itself |
| Percent.EncodeByteSafe | radicle-git-ext/src/reference/name.rs:111-116 | the output for one byte is ASCII and holds no byte of the path set |
| Percent.EncodeBytes | radicle-git-ext/src/reference/name.rs:101-119 | the output is ASCII, holds no byte of the path set, and is no shorter than the input |
| Percent.PercentEncode | radicle-git-ext/src/reference/name.rs:101-119 | the output is ASCII and holds no byte of the path set |
| Percent.DecodeEncodeBytes | radicle-git-ext/src/reference/name.rs:101-119 | decoding undoes encoding for bytes without `%` |
| Percent.EncodeNoPercent | radicle-git-ext/src/reference/name.rs:118 | a text without `%` has no `%` byte in its UTF-8 encoding |
| Percent.PercentRoundTrip | radicle-git-ext/src/reference/name.rs:101-119 | a name without `%` is recovered, as UTF-8, from its encoding |
| Percent.EncodeSafeUnchanged | radicle-git-ext/src/reference/name.rs:101-119 | text that is ASCII outside the path set is left as it is |
| Percent.PercentEncodeIdempotent | radicle-git-ext/src/reference/name.rs:101-119 | encoding an encoding changes nothing |
| Percent.PercentEncodeHash | radicle-git-ext/src/reference/name.rs:111-116 | a name `x#1` encodes to `x%231` |
| Percent.PercentEncodeNonAscii | radicle-git-ext/src/reference/name.rs:118 | `é` encodes byte by byte to `%C3%A9` |
| Percent.PercentEncodeNotInjective | radicle-git-ext/src/reference/name.rs:101-119 | the different names `x%231` and `x#1` share an encoding |
| Reference.Display | radicle-git-types/src/reference.rs:64-75 | `Heads`, `Rad`, `Tags`, `Notes` and `Cobs` display as `heads`, `rad`, `tags`, `notes` and `cobs`; an unknown category displays as its own text |
| Reference.DefaultCategories | radicle-git-types/src/reference.rs:39-44 | three named categories, displaying as `heads`, `tags`, `notes` |
| Reference.FromRefLike | radicle-git-types/src/reference.rs:89-106 | the result displays as the text; it is unknown exactly when the text is none of the five names |
| Reference.FromStr | radicle-git-types/src/reference.rs:46-62 | the five names parse without validation; any other text parses exactly when it is a valid name; a success displays as the text; a failure is the validator's error |
| Reference.FromStrDisplay | radicle-git-types/src/reference.rs:46-75 | parsing the display of a category gives the category back, by either parser |
| Reference.FromStrAgrees | radicle-git-types/src/reference.rs:46-106 | where `from_str` succeeds it agrees with `From<&RefLike>` |
| Reference.CategoryToRefLike | radicle-git-types/src/reference.rs:77-87 | the name is the display of the category, and it parses back to the category |
| Reference.WithRemote | radicle-git-types/src/reference.rs:139-144 | the remote is replaced and the other fields are kept |
| Reference.WithNamespace | radicle-git-types/src/reference.rs:155-168 | the namespace is replaced, possibly by one of another type, and the other fields are kept |
| Reference.WithName | radicle-git-types/src/reference.rs:170-176 | the name is replaced and the other fields are kept |
| Reference.SettersOverride | radicle-git-types/src/reference.rs:139-176 | a later setting of a field wins, setting a field to itself changes nothing, and setters of different fields commute |
| Reference.ReferenceCell.constructor | radicle-git-types/src/reference.rs:120-130 | the cell holds the given reference |
| Reference.ReferenceCell.SetRemote | radicle-git-types/src/reference.rs:146-148 | the new state is `with_remote` of the old one |
| Reference.ReferenceCell.Remote | radicle-git-types/src/reference.rs:150-153 | the same, and the same cell is handed back |
| Reference.ReferenceCell.SetName | radicle-git-types/src/reference.rs:178-181 | the new state is `with_name` of the old one |
| Reference.ReferenceCell.Name | radicle-git-types/src/reference.rs:183-186 | the same, and the same cell is handed back |
| Reference.ScopeRefLike | radicle-git-types/src/reference.rs:335-345 | the joins build exactly the scope text: `refs`, then `/namespaces/<ns>/refs` and `/remotes/<remote>` when present; what that text is, is stated by `ScopeShape` and `RenderedQualified` |
| Reference.ToRefLike | radicle-git-types/src/reference.rs:329-350 | the joins build exactly the rendering: scope, category, collapsed name; what that text is, is stated by `RenderedQualified`, `OneTextShape` and `OneTextParsesBack` |
| Reference.OneToPattern | radicle-git-types/src/reference.rs:362-370 | a `One` reference as a pattern has the same text |
| Reference.ToPattern | radicle-git-types/src/reference.rs:483-504 | the joins build exactly the rendering: scope, category, pattern; what that text is, is stated by `RenderedQualified` and `ManyTextShape` |
| Reference.RenderedQualified | radicle-git-types/src/reference.rs:329-350 | every rendering, of either cardinality, starts with `refs/` |
| Reference.QualifiedNameRendersOnce | radicle-git-types/src/reference.rs:347-349 | a name given as `refs/<category>/<rest>` renders as `<rest>` does, so nesting never qualifies twice |
| Reference.ScopeShape | radicle-git-types/src/reference.rs:335-345 | the scope has the shape of a valid name when the namespace and remote texts do |
| Reference.OneTextShape | radicle-git-types/src/reference.rs:329-350 | a `One` rendering has the shape of a valid name when its parts do |
| Reference.ManyTextShape | radicle-git-types/src/reference.rs:483-504 | a `Many` rendering has the shape of a valid pattern when its parts do, with exactly the `*` of its name |
| Reference.OneTextParsesBack | radicle-git-types/src/reference.rs:329-350 | without namespace and remote, `from_qualified` reads back the collapsed name and the category, which parses to the original category |
| Reference.RemoteTextParsesAsRemotes | radicle-git-types/src/reference.rs:343-344 | with a remote and no namespace, `from_qualified` takes `remotes` as the category |
| Reference.RadIdLayout | radicle-git-types/src/reference.rs:248-257 | `rad_id` renders as the scope without remote, then `/rad/id` |
| Reference.RadSignedRefsLayout | radicle-git-types/src/reference.rs:259-270 | `rad_signed_refs` renders as the scope, then `/rad/signed_refs` |
| Reference.RadSelfLayout | radicle-git-types/src/reference.rs:272-282 | `rad_self` renders as the scope, then `/rad/self` |
| Reference.HeadLayout | radicle-git-types/src/reference.rs:284-294 | `head` renders as the scope, then `/heads/<name>` |
| Reference.HeadRendersQualifiedName | radicle-git-types/src/reference.rs:284-294 | a `head` name given as `refs/heads/<name>` renders as `<name>` does |
| Reference.TagLayout | radicle-git-types/src/reference.rs:296-306 | `tag` renders as the scope, then `/tags/<name>` |
| Reference.TagRendersQualifiedName | radicle-git-types/src/reference.rs:296-306 | a `tag` name given as `refs/tags/<name>` renders as `<name>` does |
| Reference.RadIdsGlobLayout | radicle-git-types/src/reference.rs:396-405 | `rad_ids_glob` renders as the scope without remote, then `/rad/ids/*` |
| Reference.GlobLayouts | radicle-git-types/src/reference.rs:407-460 | `heads`, `rads`, `tags`, `notes` and `cob` render as the scope, then `/<category>/*` |
| Reference.RenderExamplePlain | radicle-git-types/src/reference.rs:329-350 | branch `feature/x` renders as `refs/heads/feature/x` |
| Reference.RenderExampleScoped | radicle-git-types/src/reference.rs:329-350 | in namespace `ns`, from remote `peer`, it renders as `refs/namespaces/ns/refs/remotes/peer/heads/feature/x` |
| Reference.SymbolicRefOf | radicle-git-types/src/reference.rs:231-246 | `self` becomes the target; the source and the force flag are kept |
| Iter.CursorNext | radicle-surf/src/git/repo/iter.rs:41 | a cursor yields its next item and moves past it; an exhausted cursor yields nothing and stays put |
| Iter.Get | radicle-surf/src/git/repo/iter.rs:40 | `get_mut` finds a cursor exactly for an index in range |
| Iter.Lift | radicle-surf/src/git/repo/iter.rs:43-46 | a repository error is wrapped as `Git`; a reference converts exactly when the conversion succeeds, to its value; a conversion error is wrapped as `Convert` |
| Iter.TagQualifiedName | radicle-surf/src/git/repo/iter.rs:65-69 | a tag name is `refs/tags/` followed by the reference's tag name; its errors are those of `reference_name` |
| Iter.BranchQualifiedName | radicle-surf/src/git/repo/iter.rs:132-136 | a branch name is the `refname` of the converted branch; its errors are those of `Branch::try_from` |
| Iter.RefIter.constructor | radicle-surf/src/git/repo/iter.rs:13-18 | a new iterator has no cursors and nothing pending |
| Iter.RefIter.Push | radicle-surf/src/git/repo/iter.rs:26-28 | the cursor is added last; what remains to be yielded grows by its items, after all the others |
| Iter.RefIter.Next | radicle-surf/src/git/repo/iter.rs:38-54 | `None` exactly when nothing is pending; otherwise the converted first pending reference, with the rest still pending; exhausted cursors are skipped, and only the cursor yielded from moves |
| Iter.RefIter.Names | radicle-surf/src/git/repo/iter.rs:30-32 | the names iterator keeps the cursors, the position and what is pending, and converts with the new function |
| Iter.RemainingAppend | radicle-surf/src/git/repo/iter.rs:26-28 | a cursor pushed last is drained after all the others |
| Iter.Namespaces.constructor | radicle-surf/src/git/repo/iter.rs:153-158 | the iterator holds the given set and an order of the kind `Ord` promises, which it keeps |
| Iter.Namespaces.Next | radicle-surf/src/git/repo/iter.rs:161-165 | `None` exactly when the set is empty; otherwise the least namespace, which is removed |
| Iter.LeastExists | radicle-surf/src/git/repo/iter.rs:149-151 | every non-empty set has a least element under a strict total order, so `next` is always defined |
| Iter.LeastAscending | radicle-surf/src/git/repo/iter.rs:161-165 | two namespaces handed out one after the other come in ascending order |

## Left out

- The validator's rule table is not modelled: `check::ref_format` is outside `name.rs`. This covers the 1024-byte limit (`TooLong`), `.lock`, `..`, `@{`, control characters and the other rules. The validator is a parameter, and only the facts in `Check.Conforms` are assumed of it, by the lemmas that require it.
- `Name.Join`, `Name.WithPatternSuffix`, `Name.Append`, `Name.QualifiedFromRefLike` and the renderings (`Reference.ToRefLike`, `Reference.OneToPattern`, `Reference.ToPattern`) can produce a name longer than the 1024-byte limit, as the code does. The proofs about them track only `NameShape` and `PatternShape`, not validity against the whole rule table (`Name.JoinLength`, `Name.QualifiedLength`).
- `Reference.CategoryToRefLike`, `Reference.ToRefLike`, `Reference.OneToPattern`, `Reference.ToPattern`: they require that the validator accept the category's text. This stands in for the `unwrap()` in reference.rs:79 and 85, which panics otherwise. The panic is reachable: `RefsCategory::from(&RefLike::from(OneLevel::from("refs/heads")))` is an unknown category with the empty text, and rendering a reference with it panics. The model does not cover that panic path.
- `Name.RefLikeTryFromStr`, `Name.PatternTryFromStr`: they state validity only as far as `Conforms` describes it, not the full grammar, for the same reason.
- `TryFrom<&Path> for RefLike`: host path decomposition and `OsStr` are file-system facts outside the model.
- The conversions from and to `git_ref_format` types (`RefString`, `RefStr`, `PatternString`, `PatternStr`) are left out, because that crate is not part of this model.
- The `serde` derives are left out: serialization is I/O.
- `Percent.PercentEncode`: it returns the text that the lazy `PercentEncode` iterator displays, not the iterator itself.
- `Reference::find`, `oid`, `create`, `references`, and `SymbolicRef::create` call into `git2` and a repository, and the `tracing` log lines are I/O. None of them is modelled.
- `Into<ext::blob::Branch>` is left out, because `blob::Branch` is not part of this model.
- The factories (`rad_id`, `head`, `heads`, …) are plain functions without contracts. What they promise is stated by the `…Layout` lemmas.
- The reference conversions `Tag::try_from`, `tag::reference_name`, `Branch::try_from` and `Branch::refname`, and the contents of a `git2::References` cursor, are parameters. Repository errors are values of an abstract type.
- `Iter.Namespaces`: a `BTreeSet` iterator over an abstract namespace type with an abstract `Ord`, given as a strict total order. What `Namespace`'s order actually is does not matter to the iterator.
- The lifetimes, `Default` derives and `Debug`/`Error` derives of the error enums are not modelled, since they carry no behaviour.
