/** How many words of a width there are. */
module WordCount {
  import opened Arithmetic

  ghost function Followed(a: set<seq<bool>>, bit: bool): set<seq<bool>> {
    set w | w in a :: w + [bit]
  }

  ghost function AllWords(n: nat): set<seq<bool>> {
    if n == 0 then {[]} else Followed(AllWords(n - 1), false) + Followed(AllWords(n - 1), true)
  }

  lemma {:induction false} InAllWords(w: seq<bool>)
    ensures w in AllWords(|w|)
  {
    if w != [] {
      var k := |w| - 1;
      InAllWords(w[..k]);
      assert w == w[..k] + [w[k]];
      assert w in Followed(AllWords(k), w[k]);
    }
  }

  lemma {:induction false} FollowedSize(a: set<seq<bool>>, bit: bool)
    ensures |Followed(a, bit)| <= |a|
  {
    if a != {} {
      var x :| x in a;
      FollowedSize(a - {x}, bit);
      assert Followed(a, bit) == Followed(a - {x}, bit) + {x + [bit]};
    }
  }

  lemma UnionSize<T>(a: set<T>, b: set<T>)
    ensures |a + b| <= |a| + |b|
  {}

  lemma {:induction false} AllWordsSize(n: nat)
    ensures |AllWords(n)| <= Pow2(n)
  {
    if n > 0 {
      AllWordsSize(n - 1);
      FollowedSize(AllWords(n - 1), false);
      FollowedSize(AllWords(n - 1), true);
      UnionSize(Followed(AllWords(n - 1), false), Followed(AllWords(n - 1), true));
    }
  }
}
