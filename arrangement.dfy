/**
 * The tile arrangement of the photo puzzle, as a value: cell `i` of the grid
 * holds the tile (photo fragment) numbered `s[i]`. These functions are the
 * specification the in-place array operations of module Game are proved against.
 */
module Arrangement {

  /** The solved arrangement: every cell holds its own tile. */
  function Identity(n: nat): (r: seq<int>)
    ensures |r| == n
    ensures forall i :: 0 <= i < n ==> r[i] == i
  {
    seq(n, i => i)
  }

  /** The completion test: every cell holds the tile of the same number. */
  predicate Solved(s: seq<int>)
  {
    forall i :: 0 <= i < |s| ==> s[i] == i
  }

  /** `s` holds each tile number of `0..|s|-1` exactly once. */
  predicate IsPermutation(s: seq<int>)
  {
    multiset(s) == multiset(Identity(|s|))
  }

  /** `s` holds its tiles in range and no tile twice. */
  predicate InRangeAndDistinct(s: seq<int>)
  {
    (forall i :: 0 <= i < |s| ==> 0 <= s[i] < |s|) &&
    (forall i, j :: 0 <= i < j < |s| ==> s[i] != s[j])
  }

  /** Exchange the tiles of cells `i` and `j`. */
  function Swap(s: seq<int>, i: int, j: int): (r: seq<int>)
    requires 0 <= i < |s| && 0 <= j < |s|
    ensures |r| == |s|
    ensures r[i] == s[j] && r[j] == s[i]
    ensures forall k :: 0 <= k < |s| && k != i && k != j ==> r[k] == s[k]
    ensures multiset(r) == multiset(s)
  {
    s[i := s[j]][j := s[i]]
  }

  /** Draws are usable by a shuffle of `s`: no more than one per cell, each a cell index. */
  predicate ValidDraws(s: seq<int>, draws: seq<int>)
  {
    |draws| <= |s| && forall k :: 0 <= k < |draws| ==> 0 <= draws[k] < |s|
  }

  /**
   * The shuffle walk over the first `|draws|` cells: step `i` exchanges cell `i`
   * with cell `draws[i]`, in order of increasing `i`.
   */
  function Shuffled(s: seq<int>, draws: seq<int>): (r: seq<int>)
    requires ValidDraws(s, draws)
    ensures |r| == |s|
    decreases |draws|
  {
    if draws == [] then s
    else
      var i := |draws| - 1;
      Swap(Shuffled(s, draws[..i]), i, draws[i])
  }

  /** Each tile number occurs once in the solved arrangement, and nothing else occurs. */
  lemma {:induction false} IdentityMultiplicity(n: nat, v: int)
    ensures multiset(Identity(n))[v] == if 0 <= v < n then 1 else 0
  {
    if n > 0 {
      IdentityMultiplicity(n - 1, v);
      assert Identity(n) == Identity(n - 1) + [n - 1];
      assert multiset(Identity(n)) == multiset(Identity(n - 1)) + multiset{n - 1};
    }
  }

  /** Solved is exactly "equal to the identity arrangement". */
  lemma SolvedIsIdentity(s: seq<int>)
    ensures Solved(s) <==> s == Identity(|s|)
  {
    if Solved(s) {
      assert forall i :: 0 <= i < |s| ==> s[i] == Identity(|s|)[i];
    }
  }


  /** In a distinct sequence every value occurs at most once. */
  lemma {:induction false} DistinctMultiplicity(s: seq<int>, v: int)
    requires forall i, j :: 0 <= i < j < |s| ==> s[i] != s[j]
    ensures multiset(s)[v] <= 1
  {
    if s != [] {
      var t := s[1..];
      assert s == [s[0]] + t;
      assert multiset(s) == multiset{s[0]} + multiset(t);
      DistinctMultiplicity(t, v);
      if s[0] == v {
        assert forall k :: 0 <= k < |t| ==> t[k] != v by {
          forall k | 0 <= k < |t| ensures t[k] != v {
            assert t[k] == s[k + 1];
          }
        }
        assert v !in multiset(t);
      }
    }
  }

  /** A value occurring at two different positions occurs at least twice. */
  lemma TwiceMultiplicity(s: seq<int>, i: int, j: int)
    requires 0 <= i < j < |s| && s[i] == s[j]
    ensures multiset(s)[s[i]] >= 2
  {
    var a, b, c := s[..i], s[i + 1..j], s[j + 1..];
    assert s == a + [s[i]] + b + [s[j]] + c;
    assert multiset(s) == multiset(a) + multiset{s[i]} + multiset(b) + multiset{s[j]} + multiset(c);
  }

  /**
   * A permutation holds exactly the tiles in range, none twice and none missing;
   * conversely, tiles in range and none twice make a permutation.
   */
  lemma PermutationIsInRangeAndDistinct(s: seq<int>)
    ensures IsPermutation(s) <==> InRangeAndDistinct(s)
    ensures IsPermutation(s) ==> forall v :: 0 <= v < |s| ==> v in s
  {
    var n := |s|;
    if IsPermutation(s) {
      forall i | 0 <= i < n ensures 0 <= s[i] < n {
        assert s[i] in multiset(s);
        IdentityMultiplicity(n, s[i]);
      }
      forall i, j | 0 <= i < j < n ensures s[i] != s[j] {
        if s[i] == s[j] {
          TwiceMultiplicity(s, i, j);
          IdentityMultiplicity(n, s[i]);
          assert false;
        }
      }
      forall v | 0 <= v < n ensures v in s {
        IdentityMultiplicity(n, v);
        assert v in multiset(s);
      }
    }
    if InRangeAndDistinct(s) {
      var m, id := multiset(s), multiset(Identity(n));
      forall v ensures m[v] <= id[v] {
        DistinctMultiplicity(s, v);
        IdentityMultiplicity(n, v);
        if !(0 <= v < n) {
          assert v !in s;
          assert v !in m;
        }
      }
      assert m <= id;
      assert |m| == n == |id|;
      SubMultisetOfEqualSize(m, id);
    }
  }

  /** A sub-multiset of the same size is the whole multiset. */
  lemma SubMultisetOfEqualSize(a: multiset<int>, b: multiset<int>)
    requires a <= b && |a| == |b|
    ensures a == b
  {
    var d := b - a;
    assert b == a + d;
    assert |d| == 0;
  }

  /** Unfolds `Shuffled` by one draw, for the loop proof of `Game.PhotoPuzzle.ScrambleTiles`. */
  lemma ShuffledStep(s: seq<int>, draws: seq<int>, i: int)
    requires ValidDraws(s, draws) && 0 <= i < |draws|
    ensures ValidDraws(s, draws[..i]) && ValidDraws(s, draws[..i + 1])
    ensures Shuffled(s, draws[..i + 1]) == Swap(Shuffled(s, draws[..i]), i, draws[i])
  {
    assert draws[..i + 1][..i] == draws[..i];
  }

  /** The solved arrangement holds every tile in range and none twice. */
  lemma IdentityInRangeAndDistinct(n: nat)
    ensures InRangeAndDistinct(Identity(n))
  {
    PermutationIsInRangeAndDistinct(Identity(n));
  }

  /** The shuffle walk only rearranges the tiles it starts from. */
  lemma {:induction false} ShuffledRearranges(s: seq<int>, draws: seq<int>)
    requires ValidDraws(s, draws)
    ensures multiset(Shuffled(s, draws)) == multiset(s)
    decreases |draws|
  {
    if draws != [] {
      ShuffledRearranges(s, draws[..|draws| - 1]);
    }
  }

  /** Shuffling the solved arrangement always yields a permutation. */
  lemma ShuffledIsPermutation(n: nat, draws: seq<int>)
    requires ValidDraws(Identity(n), draws)
    ensures IsPermutation(Shuffled(Identity(n), draws))
  {
    ShuffledRearranges(Identity(n), draws);
  }

  /** Swapping two cells of a permutation yields a permutation. */
  lemma SwapPreservesPermutation(s: seq<int>, i: int, j: int)
    requires IsPermutation(s) && 0 <= i < |s| && 0 <= j < |s|
    ensures IsPermutation(Swap(s, i, j))
  {
  }

  /** Swapping a cell with itself changes nothing. */
  lemma SwapSelf(s: seq<int>, i: int)
    requires 0 <= i < |s|
    ensures Swap(s, i, i) == s
  {
  }

  /**
   * The solved arrangement is a reachable shuffle result: drawing `i` at every
   * step `i` leaves every tile where it is.
   */
  lemma {:induction false} ShuffledBySelfDraws(s: seq<int>, k: nat)
    requires k <= |s|
    ensures ValidDraws(s, Identity(k)) && Shuffled(s, Identity(k)) == s
  {
    if k > 0 {
      ShuffledBySelfDraws(s, k - 1);
      assert Identity(k)[..k - 1] == Identity(k - 1);
    }
  }
}
