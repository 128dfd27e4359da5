/**
 * The interface of the ref-format validator (`check::ref_format`), which is not part of this model.
 * It is passed around as a function value; the few facts of the `git-check-ref-format` grammar the
 * model relies on are collected in `Conforms`, so that every lemma that needs them says so.
 */
module Check {
  import opened Wrappers
  import opened Text

  /** `check::Options`. */
  datatype Options = Options(allowOneLevel: bool, allowPattern: bool)

  /** The documented kinds of rejection. */
  datatype CheckError = Empty | InvalidComponent | MultiplePatterns | OneLevelNotAllowed | TooLong

  /** `check::ref_format(opts, s)`. */
  type RefFormat = (Options, string) -> Outcome<CheckError>

  /** The options `RefLike` validates with: one-level names allowed, patterns not. */
  const RefLikeOptions := Options(allowOneLevel := true, allowPattern := false)

  /** The options `RefspecPattern` validates with: one-level names and patterns allowed. */
  const PatternOptions := Options(allowOneLevel := true, allowPattern := true)

  function StarCount(s: string): nat {
    multiset(s)['*']
  }

  /** The separator adds no `*`. */
  lemma StarCountJoin(a: string, b: string)
    ensures StarCount(a + "/" + b) == StarCount(a) + StarCount(b)
  {
    assert multiset(a + "/" + b) == multiset(a) + multiset("/") + multiset(b);
  }

  /** The shape every valid refname has: no empty component and no `*`. */
  predicate NameShape(s: string) {
    ComponentsNonEmpty(s) && StarCount(s) == 0
  }

  /** The shape every valid refspec pattern has: no empty component and at most one `*`. */
  predicate PatternShape(s: string) {
    ComponentsNonEmpty(s) && StarCount(s) <= 1
  }

  /** A single non-empty component without `*` has the shape of a name. */
  lemma OneComponentShape(a: string)
    requires a != [] && '/' !in a && '*' !in a
    ensures NameShape(a)
  {
    SplitNoSep(a, '/');
  }

  /** What `git-check-ref-format` guarantees of any text it accepts under `opts`. */
  predicate Admissible(opts: Options, s: string) {
    && ComponentsNonEmpty(s)
    && (if opts.allowPattern then StarCount(s) <= 1 else StarCount(s) == 0)
    && (opts.allowOneLevel || '/' in s)
  }

  /** The validator accepts only admissible text. */
  ghost predicate Conforms(fmt: RefFormat) {
    forall opts: Options, s: string :: fmt(opts, s).Pass? ==> Admissible(opts, s)
  }
}
