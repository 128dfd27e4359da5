/**
 * The reference iterators of `radicle-surf`: `Tags`, `TagNames`, `Branches` and `BranchNames`
 * chain a list of `git2::References` cursors and convert every reference they yield; `Namespaces`
 * hands out a set of namespaces in ascending order.
 *
 * The four chained iterators run the same loop and differ only in the conversion applied to each
 * reference, so they are one class here, `RefIter`, with the conversion as a constant field. The
 * conversions themselves (`Tag::try_from`, `tag::reference_name`, `Branch::try_from`,
 * `Branch::refname`) and the references' contents are not part of this model.
 */
module Iter {
  import opened Wrappers
  import opened Text

  // ---------------------------------------------------------------------------------------------
  // Cursors

  /** A `git2::References`: the items it will still yield are `items[pos..]`. */
  datatype Cursor<T> = Cursor(items: seq<T>, pos: nat)

  predicate CursorValid<T>(c: Cursor<T>) {
    c.pos <= |c.items|
  }

  /** What a cursor has left to yield. */
  function Rest<T>(c: Cursor<T>): seq<T> {
    if c.pos <= |c.items| then c.items[c.pos..] else []
  }

  /** `References::next`: the next item and the advanced cursor; an exhausted cursor stays put. */
  function CursorNext<T>(c: Cursor<T>): (r: (Option<T>, Cursor<T>))
    requires CursorValid(c)
    ensures CursorValid(r.1) && r.1.items == c.items
    ensures r.0.None? <==> Rest(c) == []
    ensures r.0.None? ==> r.1 == c
    ensures r.0.Some? ==> r.0.value == Rest(c)[0] && Rest(r.1) == Rest(c)[1..] && r.1.pos == c.pos + 1
  {
    if c.pos < |c.items| then (Some(c.items[c.pos]), c.(pos := c.pos + 1)) else (None, c)
  }

  /** What the cursors from index `from` on have left to yield, in order. */
  function Remaining<T>(refs: seq<Cursor<T>>, from: nat): seq<T>
    decreases |refs| - from
  {
    if from >= |refs| then [] else Rest(refs[from]) + Remaining(refs, from + 1)
  }

  /** `Remaining` only looks at the cursors from `from` on. */
  lemma {:induction false} RemainingFrame<T>(a: seq<Cursor<T>>, b: seq<Cursor<T>>, from: nat)
    requires |a| == |b|
    requires forall j :: from <= j < |a| ==> a[j] == b[j]
    ensures Remaining(a, from) == Remaining(b, from)
    decreases |a| - from
  {
    if from < |a| {
      RemainingFrame(a, b, from + 1);
    }
  }

  /** A cursor added at the end yields after all the others. */
  lemma {:induction false} RemainingAppend<T>(refs: seq<Cursor<T>>, c: Cursor<T>, from: nat)
    requires from <= |refs|
    ensures Remaining(refs + [c], from) == Remaining(refs, from) + Rest(c)
    decreases |refs| - from
  {
    if from == |refs| {
      assert (refs + [c])[from] == c;
    } else {
      RemainingAppend(refs, c, from + 1);
      assert (refs + [c])[from] == refs[from];
    }
  }

  /** One step of `Remaining`. */
  lemma RemainingUnfold<T>(refs: seq<Cursor<T>>, from: nat)
    requires from < |refs|
    ensures Remaining(refs, from) == Rest(refs[from]) + Remaining(refs, from + 1)
  {
  }

  lemma TailOfAppend<T>(head: seq<T>, later: seq<T>)
    requires head != []
    ensures (head + later)[1..] == head[1..] + later
  {
  }

  /** Advancing the cursor at `from` by one drops the first remaining item. */
  lemma RemainingAdvance<T>(refs: seq<Cursor<T>>, from: nat, advanced: Cursor<T>)
    requires from < |refs| && Rest(refs[from]) != []
    requires Rest(advanced) == Rest(refs[from])[1..]
    ensures Remaining(refs[from := advanced], from) == Remaining(refs, from)[1..]
  {
    var updated := refs[from := advanced];
    var head, later := Rest(refs[from]), Remaining(refs, from + 1);
    RemainingFrame(updated, refs, from + 1);
    RemainingUnfold(refs, from);
    RemainingUnfold(updated, from);
    TailOfAppend(head, later);
  }

  /** `Vec::get_mut`. */
  function Get<T>(s: seq<T>, i: nat): (r: Option<T>)
    ensures r.Some? <==> i < |s|
    ensures r.Some? ==> r.value == s[i]
  {
    if i < |s| then Some(s[i]) else None
  }

  // ---------------------------------------------------------------------------------------------
  // Conversion of each item

  /** `error::Tag` and `error::Branch`: the error of the underlying repository, or of the conversion. */
  datatype IterError<G, C> = Git(git: G) | Convert(conv: C)

  /** `res.map_err(Git).and_then(|r| convert(&r).map_err(Convert))`. */
  function Lift<Ref, G, V, C>(res: Result<Ref, G>, convert: Ref -> Result<V, C>): (r: Result<V, IterError<G, C>>)
    ensures res.Failure? ==> r == Failure(Git(res.error))
    ensures r.Success? <==> res.Success? && convert(res.value).Success?
    ensures r.Success? ==> r.value == convert(res.value).value
    ensures res.Success? && r.Failure? ==> r.error == Convert(convert(res.value).error)
  {
    match res
    case Failure(e) => Failure(Git(e))
    case Success(reference) =>
      match convert(reference)
      case Success(v) => Success(v)
      case Failure(e) => Failure(Convert(e))
  }

  /** The conversion of `TagNames`: `tag::reference_name`, qualified with `refs/tags/`. */
  function TagQualifiedName<Ref, E>(referenceName: Ref -> Result<string, E>, r: Ref): (q: Result<string, E>)
    ensures q.Success? <==> referenceName(r).Success?
    ensures q.Success? ==> StartsWith(q.value, "refs/tags/") && q.value[10..] == referenceName(r).value
    ensures q.Failure? ==> q.error == referenceName(r).error
  {
    match referenceName(r)
    case Success(name) => Success("refs/tags/" + name)
    case Failure(e) => Failure(e)
  }

  /** The conversion of `BranchNames`: `Branch::try_from`, then the branch's `refname`. */
  function BranchQualifiedName<Ref, B, E>(tryBranch: Ref -> Result<B, E>, refname: B -> string, r: Ref): (q: Result<string, E>)
    ensures q.Success? <==> tryBranch(r).Success?
    ensures q.Success? ==> q.value == refname(tryBranch(r).value)
    ensures q.Failure? ==> q.error == tryBranch(r).error
  {
    match tryBranch(r)
    case Success(b) => Success(refname(b))
    case Failure(e) => Failure(e)
  }

  // ---------------------------------------------------------------------------------------------
  // The chained iterator

  /**
   * `Tags`, `TagNames`, `Branches` and `BranchNames`: `references` are the pushed cursors,
   * `current` the index of the one being drained, `convert` what each reference becomes.
   */
  class RefIter<Ref, G, V, C> {
    var references: seq<Cursor<Result<Ref, G>>>
    var current: nat
    const convert: Ref -> Result<V, C>

    predicate Valid()
      reads this
    {
      && current <= |references|
      && forall i :: 0 <= i < |references| ==> CursorValid(references[i])
    }

    /** The references the iterator has still to yield, in order. */
    function Pending(): seq<Result<Ref, G>>
      reads this
    {
      Remaining(references, current)
    }

    /** `Default::default`, with the conversion of the iterator at hand. */
    constructor (convert: Ref -> Result<V, C>)
      ensures Valid()
      ensures references == [] && current == 0 && this.convert == convert
      ensures Pending() == []
    {
      references := [];
      current := 0;
      this.convert := convert;
    }

    /** `push`: the new cursor is drained after all the others. */
    method Push(refs: Cursor<Result<Ref, G>>)
      requires Valid() && CursorValid(refs)
      modifies this
      ensures Valid()
      ensures references == old(references) + [refs] && current == old(current)
      ensures Pending() == old(Pending()) + Rest(refs)
    {
      RemainingAppend(references, refs, current);
      references := references + [refs];
    }

    /** `next`: the next pending reference, converted; `None` once every cursor is drained. */
    method Next() returns (item: Option<Result<V, IterError<G, C>>>)
      requires Valid()
      modifies this
      ensures Valid()
      ensures item.None? <==> old(Pending()) == []
      ensures item.Some? ==> item.value == Lift(old(Pending())[0], convert) && Pending() == old(Pending())[1..]
      ensures item.None? ==> current == |references| && references == old(references)
      ensures |references| == |old(references)| && old(current) <= current
      ensures forall j :: old(current) <= j < current ==> Rest(old(references)[j]) == []
      ensures item.Some? ==> current < |references|
      ensures item.Some? ==>
        references == old(references)[current := old(references)[current].(pos := old(references)[current].pos + 1)]
    {
      while current < |references|
        invariant Valid()
        invariant old(current) <= current <= |references|
        invariant references == old(references)
        invariant Pending() == old(Pending())
        invariant forall j :: old(current) <= j < current ==> Rest(old(references)[j]) == []
        decreases |references| - current
      {
        match Get(references, current)
        case None =>
          assert false;
          break;
        case Some(refs) =>
          var (next, advanced) := CursorNext(refs);
          if next.Some? {
            RemainingAdvance(references, current, advanced);
          }
          references := references[current := advanced];
          match next
          case Some(res) =>
            return Some(Lift(res, convert));
          case None =>
            current := current + 1;
      }
      item := None;
    }

    /** `names`: the same cursors and position, converting with `conv` from now on. */
    method Names<W, D>(conv: Ref -> Result<W, D>) returns (names: RefIter<Ref, G, W, D>)
      requires Valid()
      ensures fresh(names) && names.Valid()
      ensures names.references == references && names.current == current && names.convert == conv
      ensures names.Pending() == Pending()
    {
      names := new RefIter(conv);
      names.references := references;
      names.current := current;
    }
  }

  // ---------------------------------------------------------------------------------------------
  // Namespaces

  /** An ordering of the kind `Ord` promises. */
  ghost predicate StrictTotalOrder<T(!new)>(less: (T, T) -> bool) {
    && (forall a :: !less(a, a))
    && (forall a, b, c :: less(a, b) && less(b, c) ==> less(a, c))
    && (forall a, b :: a != b ==> less(a, b) || less(b, a))
  }

  predicate IsLeast<T(==)>(less: (T, T) -> bool, x: T, s: set<T>) {
    x in s && forall y :: y in s && y != x ==> less(x, y)
  }

  /** A finite non-empty set has a least element. */
  lemma {:induction false} LeastExists<T(!new)>(less: (T, T) -> bool, s: set<T>)
    requires StrictTotalOrder(less)
    requires s != {}
    ensures exists x :: IsLeast(less, x, s)
    decreases |s|
  {
    var y :| y in s;
    if s != {y} {
      var rest := s - {y};
      LeastExists(less, rest);
      var m :| IsLeast(less, m, rest);
      if less(m, y) {
        assert IsLeast(less, m, s);
      } else {
        assert IsLeast(less, y, s);
      }
    } else {
      assert IsLeast(less, y, s);
    }
  }

  /** Two elements handed out one after the other come in ascending order. */
  lemma LeastAscending<T(!new)>(less: (T, T) -> bool, s: set<T>, x: T, y: T)
    requires StrictTotalOrder(less)
    requires IsLeast(less, x, s) && IsLeast(less, y, s - {x})
    ensures less(x, y)
  {
  }

  /** `Namespaces`: a `BTreeSet` drained in its order. */
  class Namespaces<T(==,!new)> {
    var namespaces: set<T>
    const less: (T, T) -> bool

    /** The set is ordered as `Ord` promises. */
    ghost predicate Valid()
      reads this
    {
      StrictTotalOrder(less)
    }

    /** `Namespaces::new`. */
    constructor (namespaces: set<T>, less: (T, T) -> bool)
      requires StrictTotalOrder(less)
      ensures Valid()
      ensures this.namespaces == namespaces && this.less == less
    {
      this.namespaces := namespaces;
      this.less := less;
    }

    /** `next`: the least namespace not yet handed out. */
    method Next() returns (ns: Option<T>)
      requires Valid()
      modifies this
      ensures Valid()
      ensures ns.None? <==> old(namespaces) == {}
      ensures ns.None? ==> namespaces == old(namespaces)
      ensures ns.Some? ==> IsLeast(less, ns.value, old(namespaces)) && namespaces == old(namespaces) - {ns.value}
    {
      if namespaces == {} {
        ns := None;
      } else {
        LeastExists(less, namespaces);
        var x :| IsLeast(less, x, namespaces);
        namespaces := namespaces - {x};
        ns := Some(x);
      }
    }
  }
}
