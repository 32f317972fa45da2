/** Facts about sequences that the proofs of other modules share. */
module Sequences {

  /** `base` with `data` in place of what was there from `at` on. */
  function Splice<T>(base: seq<T>, at: nat, data: seq<T>): (r: seq<T>)
    requires at + |data| <= |base|
    ensures |r| == |base|
  {
    base[..at] + data + base[at + |data|..]
  }

  lemma Regroup<T>(a: seq<T>, b: seq<T>, c: seq<T>)
    ensures a + (b + c) == a + b + c
  {
  }

  lemma NothingAfter<T>(a: seq<T>, b: seq<T>)
    requires b == []
    ensures a + b == a
  {
  }

  lemma NothingBefore<T>(a: seq<T>, b: seq<T>)
    requires a == []
    ensures a + b == b
  {
  }

  lemma SameBehind<T>(a: seq<T>, b: seq<T>, c: seq<T>)
    ensures a + b == a + c <==> b == c
  {
    if a + b == a + c {
      assert (a + b)[|a|..] == b && (a + c)[|a|..] == c;
    }
  }

  lemma RestOf<T>(a: seq<T>, b: seq<T>)
    requires a != []
    ensures (a + b)[0] == a[0] && (a + b)[1..] == a[1..] + b
  {
  }

  lemma PrefixOn<T>(s: seq<T>, a: nat, b: seq<T>)
    requires a <= |s| && b <= s[a..]
    ensures s[..a] + b <= s
  {
  }

  lemma TailOfJoined<T>(a: seq<T>, b: seq<T>, n: nat)
    requires n <= |a|
    ensures (a + b)[n..] == a[n..] + b
  {
  }

  lemma TakeOn<T>(s: seq<T>, a: nat, b: nat)
    requires a + b <= |s|
    ensures s[..a] + s[a..][..b] == s[..a + b] && s[a..][b..] == s[a + b..]
  {
  }

  /** Two elements handed over from what is ahead. */
  lemma HandOver<T>(got: seq<T>, ahead: seq<T>, x: T, y: T)
    requires |ahead| >= 2 && [x, y] == ahead[..2]
    ensures got + [x, y] + ahead[2..] == got + ahead
  {
    assert ahead == [x, y] + ahead[2..];
  }
}
