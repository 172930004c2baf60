/**
 * The picker's selected-assets list as a value: an ordered sequence whose
 * order is the order in which the assets were selected.
 */
module Selection {
  import opened Wrappers

  /** No asset occurs twice in the list. */
  ghost predicate Unique<A>(s: seq<A>) {
    forall i, j :: 0 <= i < j < |s| ==> s[i] != s[j]
  }

  /**
   * Adds an asset after every asset already selected; an asset that is
   * already selected keeps its place.
   */
  function Add<A(==)>(s: seq<A>, a: A): (r: seq<A>)
    ensures a in r
    ensures a !in s ==> multiset(r) == multiset(s) + multiset{a}
    ensures a in s ==> r == s
    ensures a !in s ==> |r| == |s| + 1 && r[..|s|] == s && r[|s|] == a
    ensures Unique(s) ==> Unique(r)
  {
    if a in s then s else s + [a]
  }

  /**
   * Removes the asset from the list, keeping the others in their order
   * (every occurrence goes, as with an array's removeObject:).
   */
  function Remove<A(==)>(s: seq<A>, a: A): (r: seq<A>)
    ensures multiset(r) == multiset(s)[a := 0]
    ensures a !in r
    ensures a !in s ==> r == s
  {
    if s == [] then []
    else
      assert s == [s[0]] + s[1..];
      if s[0] == a then Remove(s[1..], a)
      else [s[0]] + Remove(s[1..], a)
  }

  /** The tail of a duplicate-free list is duplicate-free and does not hold its head. */
  lemma UniqueTail<A>(s: seq<A>)
    requires Unique(s) && s != []
    ensures Unique(s[1..]) && s[0] !in s[1..]
  {
    forall i, j | 0 <= i < j < |s| - 1 ensures s[1..][i] != s[1..][j] {
      assert s[1..][i] == s[i + 1] && s[1..][j] == s[j + 1];
    }
  }

  /** Putting an asset that is not in a duplicate-free list in front of it keeps it duplicate-free. */
  lemma UniqueCons<A>(x: A, t: seq<A>)
    requires Unique(t) && x !in t
    ensures Unique([x] + t)
  {
    var r := [x] + t;
    forall i, j | 0 <= i < j < |r| ensures r[i] != r[j] {
      assert r[j] == t[j - 1];
    }
  }

  /**
   * Removing from a duplicate-free list keeps it duplicate-free, and takes
   * out exactly one element when the asset was selected.
   */
  lemma {:induction false} RemoveUnique<A>(s: seq<A>, a: A)
    requires Unique(s)
    ensures Unique(Remove(s, a))
    ensures a in s ==> |Remove(s, a)| == |s| - 1
  {
    if s != [] {
      UniqueTail(s);
      RemoveUnique(s[1..], a);
      if s[0] != a {
        var t := Remove(s[1..], a);
        assert s[0] !in t by {
          assert multiset(s[1..])[s[0]] == 0;
        }
        UniqueCons(s[0], t);
      }
    }
  }

  /**
   * The 1-based selection index of an asset, as the grid shows it, or None
   * when the asset is not selected.
   */
  function IndexOf<A(==)>(s: seq<A>, a: A): (r: Option<nat>)
    ensures r.Some? <==> a in s
    ensures r.Some? ==> 1 <= r.value <= |s| && s[r.value - 1] == a && a !in s[..r.value - 1]
  {
    if s == [] then None
    else if s[0] == a then Some(1)
    else match IndexOf(s[1..], a)
      case None => None
      case Some(k) => Some(k + 1)
  }

  /**
   * Removing an asset that occurs only at position k cuts out exactly that
   * position and leaves the rest in order.
   */
  lemma {:induction false} RemoveAt<A>(s: seq<A>, a: A, k: nat)
    requires k < |s| && s[k] == a && a !in s[..k] && a !in s[k + 1..]
    ensures Remove(s, a) == s[..k] + s[k + 1..]
  {
    if k > 0 {
      assert s[0] != a by { assert s[0] == s[..k][0]; }
      assert s[1..][..k - 1] == s[1..k];
      assert s[1..][k..] == s[k + 1..];
      assert a !in s[1..][..k - 1];
      RemoveAt(s[1..], a, k - 1);
      assert s[..k] == [s[0]] + s[1..k];
    }
  }

  /** In a list without duplicates, an asset occurs only at its one position. */
  lemma UniqueAt<A>(s: seq<A>, k: nat)
    requires Unique(s) && k < |s|
    ensures s[k] !in s[..k] && s[k] !in s[k + 1..]
  {
  }

  /** Removal distributes over concatenation. */
  lemma {:induction false} RemoveAppend<A>(s: seq<A>, t: seq<A>, a: A)
    ensures Remove(s + t, a) == Remove(s, a) + Remove(t, a)
  {
    if s == [] {
      assert s + t == t;
    } else {
      assert (s + t)[1..] == s[1..] + t;
      RemoveAppend(s[1..], t, a);
    }
  }

  /** In a list without duplicates, the asset at position j has selection index j + 1. */
  lemma IndexOfAt<A>(s: seq<A>, j: nat)
    requires Unique(s) && j < |s|
    ensures IndexOf(s, s[j]) == Some(j + 1)
  {
    var r := IndexOf(s, s[j]);
    assert s[r.value - 1] == s[j];
  }
}
